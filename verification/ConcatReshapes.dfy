/** Merging reshaped slices below a concatenation, `concatReshapeSliceSimplify`.
    Slices of extent one whose sliced dimension the reshape drops are replaced by
    one larger slice, a transpose that moves the sliced dimension to the place of
    the concatenation, and a reshape. */
module ConcatReshapes {
  import opened RowMajor
  import opened ReshapeLike
  import opened Operands
  import opened ConcatSlices
  import opened MovedAxis

  // ---------------------------------------------------------------- the dimension that is sliced

  /** Dimension k has extent one and is not all of the source. */
  predicate Narrow(e: Operand, k: nat)
    requires e.Slice? && |e.starts| == |e.limits| == |e.strides| == |Shape(e.src)| == |Shape(e)| && k < |Shape(e)|
  {
    Shape(e)[k] == 1 && !(e.starts[k] == 0 && e.limits[k] == Shape(e.src)[k] && e.strides[k] == 1)
  }

  /** The only such dimension. */
  ghost predicate IsSliceDim(e: Operand, sd: nat) {
    && e.Slice? && Valid(e) && sd < |Shape(e)| && Narrow(e, sd)
    && forall k: nat | k < |Shape(e)| && k != sd :: !Narrow(e, k)
  }

  lemma SliceDimUnique(e: Operand, a: nat, b: nat)
    requires IsSliceDim(e, a) && IsSliceDim(e, b)
    ensures a == b
  {
  }

  /** The search for it. */
  method FindSliceDim(slice: Operand) returns (sliceDim: int)
    requires slice.Slice? && Valid(slice)
    ensures sliceDim >= -1
    ensures sliceDim >= 0 ==> IsSliceDim(slice, sliceDim)
    ensures sliceDim == -1 ==> forall k :: !IsSliceDim(slice, k)
  {
    sliceDim := -1;
    for idx := 0 to |slice.starts|
      invariant -1 <= sliceDim < idx
      invariant sliceDim == -1 ==> forall k: nat | k < idx :: !Narrow(slice, k)
      invariant sliceDim >= 0 ==> Narrow(slice, sliceDim) && forall k: nat | k < idx && k != sliceDim :: !Narrow(slice, k)
    {
      if Shape(slice)[idx] == 1
        && !(slice.starts[idx] == 0 && slice.limits[idx] == Shape(slice.src)[idx] && slice.strides[idx] == 1) {
        if sliceDim != -1 {
          TwoNarrow(slice, sliceDim, idx);
          return -1;
        }
        sliceDim := idx;
      }
    }
  }

  lemma TwoNarrow(e: Operand, a: nat, b: nat)
    requires e.Slice? && Valid(e) && a < b < |Shape(e)| && Narrow(e, a) && Narrow(e, b)
    ensures forall k :: !IsSliceDim(e, k)
  {
  }

  // ---------------------------------------------------------------- operands that can be merged

  /** The other dimensions are the same up to dimensions of size one. */
  ghost predicate Fits(w: seq<int>, v: seq<int>) {
    w == v || (|w| < |v| && Inserted(w, v)) || (|v| < |w| && Inserted(v, w))
  }

  lemma FitsNonUnit(w: seq<int>, v: seq<int>)
    requires Fits(w, v)
    ensures NonUnit(w) == NonUnit(v)
  {
    if |w| < |v| { InsertedNonUnit(w, v); } else if |v| < |w| { InsertedNonUnit(v, w); }
  }

  /** A reshape of a slice along sd that the pass looks at: the place of the
      concatenation exists in the rank of the slice. */
  ghost predicate Candidate(e: Operand, d: nat, sd: nat) {
    && e.Reshape? && Valid(e) && e.src.Slice? && IsSliceDim(e.src, sd)
    && d < |e.dims| && d < |Shape(e.src)|
    && Fits(Remove(Shape(e.src), sd), Remove(e.dims, d))
  }

  lemma OnlyDim(e: Operand, d: nat, sd: nat)
    requires e.Reshape? && IsSliceDim(e.src, sd)
    ensures forall k: nat | k != sd :: !Candidate(e, d, k)
  {
    forall k: nat | k != sd ensures !Candidate(e, d, k) {
      if Candidate(e, d, k) { SliceDimUnique(e.src, sd, k); }
    }
  }

  /** The first part of the scan for one operand. */
  method Classify(e: Operand, d: nat) returns (ok: bool, sliceDim: nat, same: bool)
    requires Valid(e) && (e.Reshape? ==> d < |e.dims|)
    ensures ok ==> Candidate(e, d, sliceDim) && (same <==> Remove(Shape(e.src), sliceDim) == Remove(e.dims, d))
    ensures !ok ==> forall k :: !Candidate(e, d, k)
  {
    ok, sliceDim, same := false, 0, false;
    if !e.Reshape? || !e.src.Slice? {
      return;
    }
    var slice := e.src;
    var sd := FindSliceDim(slice);
    if sd == -1 {
      return;
    }
    OnlyDim(e, d, sd);
    var src, dst := Remove(Shape(slice), sd), Remove(e.dims, d);
    var corrected := |e.dims|;
    same := src == dst;
    if src != dst {
      var insertions := FindReshapeInsertionDims(src, dst);
      var deletions := FindReshapeInsertionDims(dst, src);
      if insertions == [] && deletions == [] {
        return;
      }
      if insertions != [] {
        corrected := corrected - |insertions|;
      } else {
        corrected := corrected + |deletions|;
      }
    }
    assert corrected == |Shape(slice)|;
    if corrected <= d {
      return;
    }
    ok, sliceDim := true, sd;
  }

  /** The next operand has the same reshape of a slice that goes on along sd. */
  ghost predicate Follows(e: Operand, f: Operand, sd: nat) {
    e.Reshape? && f.Reshape? && f.dims == e.dims && Mergeable(e.src, f.src, sd)
  }

  ghost predicate Linked(e: Operand, f: Operand, d: nat) {
    exists sd :: Candidate(e, d, sd) && Follows(e, f, sd)
  }

  /** What the pass does not ask for: the slice ends on a whole step, and the axis has
      as many sizes other than one before it in the slice as in the result. */
  ghost predicate Placed(e: Operand, d: nat, sd: nat)
    requires Candidate(e, d, sd)
  {
    WholeSteps(e.src, sd) && SamePlace(Remove(Shape(e.src), sd), Remove(e.dims, d), d)
  }

  // ---------------------------------------------------------------- shapes of a candidate

  /** The shapes involved: w the slice without sd, v the cross-section of the concatenation. */
  ghost predicate Shaped(e: Operand, d: nat, sd: nat, w: seq<int>, v: seq<int>) {
    && Candidate(e, d, sd) && w == Remove(Shape(e.src), sd) && v == Remove(e.dims, d)
    && Positive(w) && Positive(v) && NonUnit(w) == NonUnit(v)
    && Shape(e.src) == Insert(w, sd, 1) && e.dims == Insert(v, d, 1)
    && sd <= |w| && d <= |w| && d <= |v|
  }

  lemma TailNonNegative(s: seq<int>)
    requires NonNegative(s) && s != []
    ensures NonNegative(s[1..]) && s[0] >= 0 && Product(s) == s[0] * Product(s[1..])
  {
  }

  lemma {:induction false} PositiveFactors(s: seq<int>)
    requires NonNegative(s) && Product(s) > 0
    ensures Positive(s)
  {
    if s != [] {
      hide Product;
      TailNonNegative(s);
      ProductSign(s[1..]);
      BothPositive(s[0], Product(s[1..]));
      PositiveFactors(s[1..]);
      FirstAndRest(s);
    }
  }

  lemma BothPositive(a: int, b: int)
    requires a >= 0 && b >= 0 && a * b > 0
    ensures a > 0 && b > 0
  {
  }

  lemma {:induction false} ProductSign(s: seq<int>)
    requires NonNegative(s)
    ensures Product(s) >= 0
  {
    if s != [] {
      TailNonNegative(s);
      ProductSign(s[1..]);
      MulMonotone(0, s[0], Product(s[1..]));
    }
  }

  lemma RemoveNonNegative(s: seq<int>, d: nat)
    requires NonNegative(s) && d < |s|
    ensures NonNegative(Remove(s, d)) && s == Insert(Remove(s, d), d, s[d])
  {
  }

  lemma RemoveCross(dims: seq<int>, rest: seq<int>, d: nat)
    requires d < |dims| == |rest| && CrossSection(rest, d) && dims[d := 0] == rest[d := 0]
    ensures Remove(dims, d) == Remove(rest, d) && Positive(Remove(rest, d))
  {
    assert Remove(dims, d) == Remove(dims[d := 0], d) && Remove(rest, d) == Remove(rest[d := 0], d);
  }

  /** In a concatenation with a cross-section that is not empty. */
  lemma CandidateShaped(e: Operand, d: nat, sd: nat, rest: seq<int>)
    requires Candidate(e, d, sd) && Joinable([e], d, rest) && CrossSection(rest, d)
    ensures Shaped(e, d, sd, Remove(Shape(e.src), sd), Remove(rest, d)) && Remove(rest, d) == Remove(e.dims, d)
  {
    hide NonUnit, Fits, Product, Insert, Remove, IsSliceDim, Shape;
    CandidateFacts(e, d, sd);
    assert Valid([e][0]);
    var s := Shape(e.src);
    var w, v := Remove(s, sd), Remove(e.dims, d);
    RemoveCross(e.dims, rest, d);
    FitsNonUnit(w, v);
    ProductNonUnit(w);
    ProductNonUnit(v);
    ProductPositive(v);
    ShapeNonNegative(e.src);
    RemoveNonNegative(s, sd);
    PositiveFactors(w);
    RemoveNonNegative(e.dims, d);
    ProductInsert(w, sd, 1);
    ProductInsert(v, d, e.dims[d]);
    OneFactor(Product(v), e.dims[d]);
  }

  lemma CandidateFacts(e: Operand, d: nat, sd: nat)
    requires Candidate(e, d, sd)
    ensures e.Reshape? && Valid(e) && e.src.Slice? && Valid(e.src) && Shape(e) == e.dims && NonNegative(e.dims)
    ensures sd < |Shape(e.src)| && Shape(e.src)[sd] == 1 && d < |Shape(e.src)| && d < |e.dims|
    ensures Product(e.dims) == Product(Shape(e.src)) && Fits(Remove(Shape(e.src), sd), Remove(e.dims, d))
  {
  }

  lemma OneFactor(p: int, x: int)
    requires p > 0 && p * x == p
    ensures x == 1
  {
    if x > 1 { MulMonotone(2, x, p); }
    if x < 1 { MulMonotone(x, 0, p); }
  }

  /** The next operand is a candidate along the same dimension, with the same shapes. */
  lemma FollowsShaped(e: Operand, f: Operand, d: nat, sd: nat, w: seq<int>, v: seq<int>)
    requires Shaped(e, d, sd, w, v) && Follows(e, f, sd) && Valid(f)
    ensures Shaped(f, d, sd, w, v)
  {
    hide NonUnit, Fits, Product, Inserted;
    var s, t := e.src, f.src;
    MergeLengths(s, t, sd);
    assert forall k: nat | k < |Shape(s)| && k != sd :: Shape(t)[k] == Shape(s)[k];
    RemoveInsert(w, sd, 1);
    assert Remove(Shape(t), sd) == w;
    InsertRemove(Shape(t), sd, Shape(t)[sd]);
    assert Shape(t) == Insert(w, sd, Shape(t)[sd]);
    ProductInsert(w, sd, Shape(t)[sd]);
    ProductInsert(w, sd, 1);
    ProductPositive(w);
    OneFactor(Product(w), Shape(t)[sd]);
    ExtentSign(s.starts[sd], s.limits[sd], s.strides[sd]);
    assert Narrow(t, sd);
    forall k: nat | k < |Shape(t)| && k != sd ensures !Narrow(t, k) {
      assert !Narrow(s, k);
    }
  }

  // ---------------------------------------------------------------- what a reshaped slice reads

  /** The index over w that goes with an index over v. */
  function Across(w: seq<int>, v: seq<int>, iv: Index): (iw: Index)
    requires NonUnit(w) == NonUnit(v) && |iv| == |v|
    ensures |iw| == |w|
  {
    Matched(w, Kept(v, iv))
  }

  lemma AcrossBounds(w: seq<int>, v: seq<int>, iv: Index)
    requires NonUnit(w) == NonUnit(v) && Positive(v) && InBounds(iv, v)
    ensures InBounds(Across(w, v, iv), w) && Kept(w, Across(w, v, iv)) == Kept(v, iv)
  {
    KeptBounds(v, iv);
    MatchedKept(w, Kept(v, iv));
  }

  lemma ReshapeElement(e: Operand, idx: Index, at: Index)
    requires e.Reshape? && Valid(e) && InBounds(idx, e.dims) && Positive(Shape(e.src))
    requires InBounds(at, Shape(e.src)) && Linear(at, Shape(e.src)) == Linear(idx, e.dims)
    ensures Valid(e.src) && Element(e, idx) == Element(e.src, at)
  {
    LinearThenMulti(at, Shape(e.src));
  }

  lemma TransposeElement(e: Operand, at: Index)
    requires e.Transpose? && Valid(e) && |at| == |Shape(e.src)|
    ensures Valid(e.src) && |Shape(e)| == |at| && Shape(e) == Permuted(Shape(e.src), e.perm)
    ensures Element(e, Permuted(at, e.perm)) == Element(e.src, at)
  {
    var r := Unpermuted(Permuted(at, e.perm), e.perm);
    forall k: nat | k < |at| ensures r[k] == at[k] {
      assert k in e.perm;
      PlaceUnique(e.perm, k);
    }
    assert r == at;
  }

  lemma PlaceUnique(perm: seq<nat>, d: nat)
    requires d in perm
    ensures Place(perm, d) < |perm| && perm[Place(perm, d)] == d
  {
  }

  lemma OldReads(e: Operand, d: nat, sd: nat, w: seq<int>, v: seq<int>, iv: Index)
    requires Shaped(e, d, sd, w, v) && InBounds(iv, v)
    ensures InBounds(Insert(iv, d, 0), e.dims) && |Shape(e)| == |iv| + 1 && Valid(e) && Valid(e.src)
    ensures Element(e, Insert(iv, d, 0)) == Element(e.src, Insert(Across(w, v, iv), sd, 0))
  {
    hide Linear, NonUnit, Kept, Product, Insert, Element, Across, IsSliceDim, Fits;
    var iw := Across(w, v, iv);
    AcrossBounds(w, v, iv);
    KeptInsertUnit(w, iw, sd);
    KeptInsertUnit(v, iv, d);
    InsertBounds(iv, v, d, 0, 1);
    InsertBounds(iw, w, sd, 0, 1);
    InsertPositive(w, sd, 1);
    LinearKept(Insert(w, sd, 1), Insert(iw, sd, 0));
    LinearKept(Insert(v, d, 1), Insert(iv, d, 0));
    ReshapeElement(e, Insert(iv, d, 0), Insert(iw, sd, 0));
  }

  // ---------------------------------------------------------------- a group of operands

  /** As many operands as the slice has elements along sd, each with one along d. */
  ghost predicate GroupShape(span: seq<Operand>, m: Operand, d: nat, sd: nat, w: seq<int>, v: seq<int>, rest: seq<int>) {
    && m.Slice? && Valid(m) && Positive(w) && Positive(v) && NonUnit(w) == NonUnit(v)
    && sd <= |w| && d <= |w| && d <= |v| && |span| > 0 && Shape(m) == Insert(w, sd, |span|)
    && Joinable(span, d, rest) && Total(span, d, rest) == |span| && |rest| == |v| + 1 && Remove(rest, d) == v
  }

  ghost predicate SameAt(span: seq<Operand>, m: Operand, d: nat, sd: nat, w: seq<int>, v: seq<int>, rest: seq<int>,
                         iv: Index, j: int)
    requires Joinable(span, d, rest) && d <= |iv| == |v| && |rest| == |v| + 1 && j < Total(span, d, rest)
    requires NonUnit(w) == NonUnit(v) && sd <= |w| && Valid(m) && |Shape(m)| == |w| + 1
  {
    Concatenated(span, d, rest, Insert(iv, d, j)) == Element(m, Insert(Across(w, v, iv), sd, j))
  }

  /** The operands of span are the slices of extent one of m, in order. */
  ghost predicate Grouped(span: seq<Operand>, m: Operand, d: nat, sd: nat, w: seq<int>, v: seq<int>, rest: seq<int>) {
    && GroupShape(span, m, d, sd, w, v, rest)
    && forall iv, j | InBounds(iv, v) && 0 <= j < |span| :: SameAt(span, m, d, sd, w, v, rest, iv, j)
  }

  lemma ShapedLengths(e: Operand, d: nat, sd: nat, w: seq<int>, v: seq<int>)
    requires Shaped(e, d, sd, w, v)
    ensures e.Reshape? && Valid(e) && e.src.Slice? && Valid(e.src) && Shape(e) == e.dims == Insert(v, d, 1)
    ensures Shape(e.src) == Insert(w, sd, 1) && Positive(w) && Positive(v) && NonUnit(w) == NonUnit(v)
    ensures sd <= |w| && d <= |w| && d <= |v| && |e.src.starts| == |w| + 1
  {
  }

  lemma GroupStart(e: Operand, d: nat, sd: nat, w: seq<int>, v: seq<int>, rest: seq<int>)
    requires Shaped(e, d, sd, w, v) && Joinable([e], d, rest) && Remove(rest, d) == v
    ensures Grouped([e], e.src, d, sd, w, v, rest)
  {
    hide Shaped, Joinable, Total, Concatenated, Element, Across, NonUnit, Shape, Valid;
    ShapedLengths(e, d, sd, w, v);
    OneOperand(e, d, rest, Insert(Origin(v), d, 0));
    forall iv, j | InBounds(iv, v) && 0 <= j < 1 ensures SameAt([e], e.src, d, sd, w, v, rest, iv, j)
    {
      OneOperand(e, d, rest, Insert(iv, d, j));
      OldReads(e, d, sd, w, v, iv);
    }
  }

  lemma GroupNext(span: seq<Operand>, m: Operand, f: Operand, d: nat, sd: nat, w: seq<int>, v: seq<int>, rest: seq<int>)
    requires Grouped(span, m, d, sd, w, v, rest) && Shaped(f, d, sd, w, v) && Joinable([f], d, rest)
    requires Mergeable(m, f.src, sd) && WholeSteps(m, sd)
    ensures Grouped(span + [f], Merged(m, f.src.limits), d, sd, w, v, rest)
  {
    hide Shaped, Joinable, Total, Concatenated, Element, Across, NonUnit, Shape, Valid, Mergeable, WholeSteps;
    ShapedLengths(f, d, sd, w, v);
    var n, t := |span|, Merged(m, f.src.limits);
    MergedExtents(m, f.src, sd);
    MergedShape(m, f.src, sd);
    assert Shape(t) == Insert(w, sd, n + 1);
    var z := Insert(Origin(v), d, 0);
    ConcatSplit(span, [f], d, rest, z);
    OneOperand(f, d, rest, z);
    forall iv, j | InBounds(iv, v) && 0 <= j < n + 1 ensures SameAt(span + [f], t, d, sd, w, v, rest, iv, j) {
      assert j < n ==> SameAt(span, m, d, sd, w, v, rest, iv, j);
      var iw := Across(w, v, iv);
      var at := Insert(iw, sd, j);
      ConcatSplit(span, [f], d, rest, Insert(iv, d, j));
      MergedElements(m, f.src, sd, at);
      if j == n {
        assert Insert(iv, d, n)[d := 0] == Insert(iv, d, 0);
        OneOperand(f, d, rest, Insert(iv, d, 0));
        OldReads(f, d, sd, w, v, iv);
        assert at[sd := 0] == Insert(iw, sd, 0);
      }
    }
  }

  lemma MergedShape(m: Operand, t: Operand, sd: nat)
    requires Mergeable(m, t, sd)
    ensures Merged(m, t.limits).Slice? && Valid(Merged(m, t.limits)) && |Shape(Merged(m, t.limits))| == |Shape(m)|
    ensures sd < |Shape(m)| && Shape(Merged(m, t.limits)) == Shape(m)[sd := Shape(Merged(m, t.limits))[sd]]
  {
    hide Extent;
    var r := Merged(m, t.limits);
    forall k | 0 <= k < |Shape(m)| && k != sd ensures Shape(r)[k] == Shape(m)[k] { }
  }

  // ---------------------------------------------------------------- the operand put in its place

  /** The larger slice with the axis moved, and the other dimensions as in the reshape. */
  function Replacement(m: Operand, perm: seq<nat>, dims: seq<int>, d: nat, total: int, same: bool): Operand
    requires d < |dims|
  {
    if same then Transpose(m, perm) else Reshape(Transpose(m, perm), dims[d := total])
  }

  lemma KeptUnique(w: seq<int>, a: Index, b: Index)
    requires Positive(w) && InBounds(a, w) && InBounds(b, w) && Kept(w, a) == Kept(w, b)
    ensures a == b
  {
    LinearKept(w, a);
    LinearKept(w, b);
    LinearInjective(a, b, w);
  }

  lemma TransposedShape(m: Operand, perm: seq<nat>, sd: nat, d: nat, w: seq<int>, k: int)
    requires sd <= |w| && d <= |w| && Valid(m) && Shape(m) == Insert(w, sd, k) && MovesAxis(perm, |w| + 1, sd, d)
    ensures Valid(Transpose(m, perm)) && Shape(Transpose(m, perm)) == Insert(w, d, k)
  {
    MovesInserted(w, k, perm, sd, d);
    assert Shape(Transpose(m, perm)) == Permuted(Shape(m), perm);
  }

  lemma TransposedElement(m: Operand, perm: seq<nat>, sd: nat, d: nat, w: seq<int>, k: int, iw: Index, j: int)
    requires sd <= |w| && d <= |w| && Valid(m) && Shape(m) == Insert(w, sd, k) && MovesAxis(perm, |w| + 1, sd, d)
    requires |iw| == |w|
    ensures Valid(Transpose(m, perm)) && |Shape(Transpose(m, perm))| == |w| + 1
    ensures Element(Transpose(m, perm), Insert(iw, d, j)) == Element(m, Insert(iw, sd, j))
  {
    hide Shape, Element, Valid, MovesAxis;
    TransposedShape(m, perm, sd, d, w, k);
    MovesInserted(iw, j, perm, sd, d);
    TransposeElement(Transpose(m, perm), Insert(iw, sd, j));
  }

  lemma ReplacementShape(m: Operand, perm: seq<nat>, sd: nat, d: nat, w: seq<int>, v: seq<int>, k: nat, same: bool, rest: seq<int>)
    requires sd <= |w| && d <= |w| && Valid(m) && Shape(m) == Insert(w, sd, k) && d <= |v| && MovesAxis(perm, |w| + 1, sd, d)
    requires NonUnit(w) == NonUnit(v) && Positive(v) && (same ==> w == v) && d < |rest| && Remove(rest, d) == v
    ensures var r := Replacement(m, perm, Insert(v, d, 1), d, k, same);
      Valid(r) && Shape(r) == Insert(v, d, k) && Joinable([r], d, rest)
  {
    hide NonUnit, Product, MovesAxis, Insert, Remove;
    TransposedShape(m, perm, sd, d, w, k);
    InsertSet(v, d, 1, k);
    ProductNonUnit(w);
    ProductNonUnit(v);
    ProductInsert(w, d, k);
    ProductInsert(v, d, k);
    InsertAt(v, d, k, rest);
  }

  lemma InsertAt(v: seq<int>, d: nat, k: nat, rest: seq<int>)
    requires d < |rest| && Remove(rest, d) == v && Positive(v)
    ensures |Insert(v, d, k)| == |rest| && Insert(v, d, k)[d := 0] == rest[d := 0] && NonNegative(Insert(v, d, k))
  {
    assert Insert(v, d, k)[d := 0] == Insert(v, d, 0);
    assert rest[d := 0] == Insert(v, d, 0);
  }

  /** What the new operand has at an index, where the axis stands at the same place. */
  lemma NewReads(m: Operand, perm: seq<nat>, sd: nat, d: nat, w: seq<int>, v: seq<int>, k: nat, same: bool,
                 iv: Index, j: int, rest: seq<int>)
    requires sd <= |w| && d <= |w| && Valid(m) && Shape(m) == Insert(w, sd, k) && d <= |v| && MovesAxis(perm, |w| + 1, sd, d)
    requires NonUnit(w) == NonUnit(v) && Positive(w) && Positive(v) && (same ==> w == v) && d < |rest| && Remove(rest, d) == v
    requires SamePlace(w, v, d) && k >= 2 && InBounds(iv, v) && 0 <= j < k
    ensures var r := Replacement(m, perm, Insert(v, d, 1), d, k, same);
      Valid(r) && |Shape(r)| == |v| + 1 && Element(r, Insert(iv, d, j)) == Element(m, Insert(Across(w, v, iv), sd, j))
  {
    hide NonUnit, Product, Linear, Kept, MovesAxis, SamePlace, Shape, Valid, Element, Across, Insert, Remove;
    var iw := Across(w, v, iv);
    AcrossBounds(w, v, iv);
    ReplacementShape(m, perm, sd, d, w, v, k, same, rest);
    TransposedShape(m, perm, sd, d, w, k);
    TransposedElement(m, perm, sd, d, w, k, iw, j);
    if same {
      KeptUnique(w, iw, iv);
    } else {
      SamePositions(w, iw, v, iv, d, k, j);
      InsertBounds(iv, v, d, j, k);
      InsertBounds(iw, w, d, j, k);
      InsertPositive(w, d, k);
      InsertSet(v, d, 1, k);
      ReshapeElement(Replacement(m, perm, Insert(v, d, 1), d, k, same), Insert(iv, d, j), Insert(iw, d, j));
    }
  }

  lemma InsertSet(v: seq<int>, d: nat, x: int, k: int)
    requires d <= |v|
    ensures Insert(v, d, x)[d := k] == Insert(v, d, k)
  {
  }

  /** Every index over the concatenation comes from one over the cross-section. */
  lemma InsertedIndex(idx: Index, rest: seq<int>, d: nat, k: int)
    requires d < |rest| == |idx| && InBounds(idx, rest[d := k])
    ensures InBounds(Remove(idx, d), Remove(rest, d)) && 0 <= idx[d] < k && idx == Insert(Remove(idx, d), d, idx[d])
  {
    assert Remove(rest[d := k], d) == Remove(rest, d);
  }

  /** The new operand is the same tensor as the group. */
  lemma ReplacementKeeps(span: seq<Operand>, m: Operand, perm: seq<nat>, d: nat, sd: nat, w: seq<int>, v: seq<int>,
                         same: bool, rest: seq<int>)
    requires Grouped(span, m, d, sd, w, v, rest) && |span| >= 2 && MovesAxis(perm, |w| + 1, sd, d)
    requires SamePlace(w, v, d) && (same ==> w == v)
    ensures SameTensor([Replacement(m, perm, Insert(v, d, 1), d, |span|, same)], span, d, rest)
  {
    var k, r := |span|, Replacement(m, perm, Insert(v, d, 1), d, |span|, same);
    assert d < |rest|;
    ReplacementShape(m, perm, sd, d, w, v, k, same, rest);
    OneOperand(r, d, rest, Insert(Origin(v), d, 0));
    hide NonUnit, MovesAxis, SamePlace, Shape, Valid, Element, Across, Joinable, Total, Concatenated, Remove, Insert, Replacement;
    forall idx: Index | |idx| == |rest| && InBounds(idx, rest[d := Total([r], d, rest)])
      ensures Concatenated([r], d, rest, idx) == Concatenated(span, d, rest, idx)
    {
      InsertedIndex(idx, rest, d, k);
      var iv, j := Remove(idx, d), idx[d];
      OneOperand(r, d, rest, idx);
      NewReads(m, perm, sd, d, w, v, k, same, iv, j, rest);
      assert SameAt(span, m, d, sd, w, v, rest, iv, j);
    }
  }

  // ---------------------------------------------------------------- the pass over the operands

  ghost predicate LinkedWithin(ops: seq<Operand>, n: nat, d: nat) {
    exists k :: 0 <= k < n && k + 1 < |ops| && Linked(ops[k], ops[k + 1], d)
  }

  lemma LinkedNext(ops: seq<Operand>, n: nat, d: nat)
    ensures LinkedWithin(ops, n + 1, d) <==> LinkedWithin(ops, n, d) || (n + 1 < |ops| && Linked(ops[n], ops[n + 1], d))
    ensures !LinkedWithin(ops, 0, d)
  {
    hide Linked;
  }

  /** Operands that are merged with the next one are placed well. */
  ghost predicate AllPlaced(ops: seq<Operand>, d: nat) {
    forall k, sd | 0 <= k < |ops| - 1 && Candidate(ops[k], d, sd) && Follows(ops[k], ops[k + 1], sd) ::
      Placed(ops[k], d, sd)
  }

  lemma LinkedIs(e: Operand, f: Operand, d: nat, sd: nat)
    requires Candidate(e, d, sd)
    ensures Linked(e, f, d) <==> Follows(e, f, sd)
  {
    hide Follows;
    OnlyDim(e, d, sd);
  }

  lemma NotLinked(e: Operand, f: Operand, d: nat)
    requires forall sd :: !Candidate(e, d, sd)
    ensures !Linked(e, f, d)
  {
  }

  /** The merged slice goes on with the next operand where the last operand does. */
  lemma EndsFollows(m: Operand, e: Operand, f: Operand, sd: nat)
    requires e.Reshape? && Ends(m, e.src, sd)
    ensures Follows(e, f, sd) <==> f.Reshape? && f.dims == e.dims && Mergeable(m, f.src, sd)
  {
  }

  /** The group so far: where it began, the operands in it and the merged slice. */
  ghost predicate Growing(ops: seq<Operand>, i: nat, start: seq<Operand>, span: seq<Operand>, m: Operand,
                          d: nat, sd: nat, w: seq<int>, v: seq<int>, rest: seq<int>) {
    && i < |ops| && start + span == ops[..i + 1] && Shaped(ops[i], d, sd, w, v)
    && Ends(m, ops[i].src, sd) && Grouped(span, m, d, sd, w, v, rest)
  }

  lemma GrowingStart(ops: seq<Operand>, i: nat, d: nat, sd: nat, rest: seq<int>)
    requires Joinable(ops, d, rest) && CrossSection(rest, d) && i < |ops| && Candidate(ops[i], d, sd)
    ensures ops[i].Reshape? && ops[i].src.Slice? && sd < |Shape(ops[i].src)| && d < |rest|
    ensures Growing(ops, i, ops[..i], [ops[i]], ops[i].src, d, sd, Remove(Shape(ops[i].src), sd), Remove(rest, d), rest)
  {
    hide Grouped, Joinable, Ends;
    PrefixJoinable(ops, i, d, rest);
    Bounds(ops, d, rest);
    CandidateFacts(ops[i], d, sd);
    CandidateShaped(ops[i], d, sd, rest);
    GroupStart(ops[i], d, sd, Remove(Shape(ops[i].src), sd), Remove(rest, d), rest);
    SliceLengths(ops[i].src);
    EndsStart(ops[i].src, sd);
  }

  lemma SliceLengths(e: Operand)
    requires e.Slice? && Valid(e)
    ensures |e.starts| == |e.limits| == |e.strides| == |Shape(e)|
  {
  }

  lemma GrowingNext(ops: seq<Operand>, i: nat, start: seq<Operand>, span: seq<Operand>, m: Operand,
                    d: nat, sd: nat, w: seq<int>, v: seq<int>, rest: seq<int>)
    requires Growing(ops, i, start, span, m, d, sd, w, v, rest) && AllPlaced(ops, d) && Joinable(ops, d, rest)
    requires i + 1 < |ops| && Follows(ops[i], ops[i + 1], sd)
    ensures m.Slice? && ops[i + 1].Reshape? && ops[i + 1].src.Slice? && SamePlace(w, v, d)
    ensures Merged(m, ops[i + 1].src.limits).Slice?
    ensures Growing(ops, i + 1, start, span + [ops[i + 1]], Merged(m, ops[i + 1].src.limits), d, sd, w, v, rest)
  {
    var e, f := ops[i], ops[i + 1];
    assert Valid(f);
    PrefixJoinable(ops, i + 1, d, rest);
    Regroup(start, span, f);
    EndsFollows(m, e, f, sd);
    FollowsShaped(e, f, d, sd, w, v);
    PlacedAt(ops, i, d, sd);
    hide Grouped, Joinable, Candidate, Mergeable, WholeSteps, Ends, SamePlace, NonUnit, Shape, Valid;
    EndsWhole(m, e.src, sd);
    GroupNext(span, m, f, d, sd, w, v, rest);
    NextEnds(m, f.src, sd);
  }

  lemma PlacedAt(ops: seq<Operand>, i: nat, d: nat, sd: nat)
    requires AllPlaced(ops, d) && i + 1 < |ops| && Candidate(ops[i], d, sd) && Follows(ops[i], ops[i + 1], sd)
    ensures ops[i].src.Slice? && Valid(ops[i].src) && sd < |ops[i].src.starts| && WholeSteps(ops[i].src, sd)
    ensures sd < |Shape(ops[i].src)| && d < |ops[i].dims| && d < |Shape(ops[i].src)|
    ensures SamePlace(Remove(Shape(ops[i].src), sd), Remove(ops[i].dims, d), d)
  {
  }

  lemma NextEnds(m: Operand, t: Operand, sd: nat)
    requires Mergeable(m, t, sd) && WholeSteps(m, sd)
    ensures Ends(Merged(m, t.limits), t, sd)
  {
    hide Extent;
    MergedShape(m, t, sd);
    var r := Merged(m, t.limits);
    assert t.starts[sd := r.starts[sd]] == r.starts;
    assert t.strides == r.strides;
  }

  /** Whether the next operand is merged. */
  method CanFollow(m: Operand, e: Operand, f: Operand, sd: nat) returns (b: bool)
    requires e.Reshape? && Ends(m, e.src, sd) && Valid(f)
    ensures b <==> Follows(e, f, sd)
  {
    EndsFollows(m, e, f, sd);
    if !f.Reshape? || !f.src.Slice? {
      return false;
    }
    if f.dims != e.dims || f.src.src != m.src {
      return false;
    }
    b := CanMergeSlicesAlongAxis(sd, m.starts, f.src.starts, m.limits, f.src.limits, m.strides, f.src.strides);
  }

  /** What is pushed for a group. */
  method Push(m: Operand, first: Operand, same: bool, merged: bool, total: int, d: nat, sd: nat,
              ghost span: seq<Operand>, ghost w: seq<int>, ghost v: seq<int>, ghost rest: seq<int>) returns (r: Operand)
    requires Shaped(first, d, sd, w, v) && Grouped(span, m, d, sd, w, v, rest) && (same ==> w == v)
    requires merged ==> |span| >= 2 && total == |span| && SamePlace(w, v, d)
    requires !merged ==> span == [first]
    ensures SameTensor([r], span, d, rest) && (!merged ==> r == first)
    ensures merged ==> IsReplacement(r, m, first, sd, d, total, same)
  {
    hide SamePlace, NonUnit, Element, Across;
    ShapedLengths(first, d, sd, w, v);
    if !merged {
      SameRefl([first], d, rest);
      return first;
    }
    var permutation := AxisPermutation(|m.starts|, sd, d);
    ReplacementKeeps(span, m, permutation, d, sd, w, v, same, rest);
    r := Replacement(m, permutation, first.dims, d, total, same);
  }

  // ---------------------------------------------------------------- what the new list is

  /** r stands for the run: the run itself if it is one operand, and otherwise the slice
      from the start of the first to the limit of the last, with its axis moved. */
  ghost predicate Stands(run: seq<Operand>, r: Operand, d: nat) {
    |run| > 0 &&
    if |run| == 1 then r == run[0]
    else
      var first, last := run[0], run[|run| - 1];
      && first.Reshape? && first.src.Slice? && last.Reshape? && last.src.Slice? && d < |first.dims|
      && exists sd, perm ::
        && Candidate(first, d, sd) && MovesAxis(perm, |first.src.starts|, sd, d)
        && r == Replacement(Merged(first.src, last.src.limits), perm, first.dims, d, |run| * first.dims[d],
                            Remove(Shape(first.src), sd) == Remove(first.dims, d))
  }

  /** Operand k of the new list stands for the operands from cuts[k] to cuts[k + 1]: each
      is linked to the next one, and the last is not. */
  ghost predicate PieceAt(ops: seq<Operand>, news: seq<Operand>, cuts: seq<nat>, k: nat, d: nat)
    requires k < |news| && k + 1 < |cuts|
  {
    && cuts[k] < cuts[k + 1] <= |ops| && Stands(ops[cuts[k]..cuts[k + 1]], news[k], d)
    && LinkedFrom(ops, cuts[k], cuts[k + 1] - 1, d)
    && (cuts[k + 1] < |ops| ==> !Linked(ops[cuts[k + 1] - 1], ops[cuts[k + 1]], d))
  }

  ghost predicate LinkedFrom(ops: seq<Operand>, a: nat, b: int, d: nat) {
    b < |ops| && forall i | a <= i < b :: Linked(ops[i], ops[i + 1], d)
  }

  ghost predicate Pieces(ops: seq<Operand>, news: seq<Operand>, cuts: seq<nat>, n: nat, d: nat) {
    && |cuts| == |news| + 1 && cuts[0] == 0 && cuts[|news|] == n <= |ops|
    && forall k: nat | k < |news| :: PieceAt(ops, news, cuts, k, d)
  }

  /** The new list has one operand for each run of linked operands. */
  ghost predicate Simplified(ops: seq<Operand>, news: seq<Operand>, d: nat) {
    exists cuts :: Pieces(ops, news, cuts, |ops|, d)
  }

  lemma PiecesNext(ops: seq<Operand>, news: seq<Operand>, cuts: seq<nat>, a: nat, b: nat, r: Operand, d: nat)
    requires Pieces(ops, news, cuts, a, d) && a < b <= |ops| && Stands(ops[a..b], r, d)
    requires LinkedFrom(ops, a, b - 1, d) && (b < |ops| ==> !Linked(ops[b - 1], ops[b], d))
    ensures Pieces(ops, news + [r], cuts + [b], b, d)
  {
    hide Stands, Linked, LinkedFrom;
    var news', cuts' := news + [r], cuts + [b];
    forall k: nat | k < |news'| ensures PieceAt(ops, news', cuts', k, d) {
      assert k < |news| ==> PieceAt(ops, news, cuts, k, d);
    }
  }

  /** The number of operands among the first n that are linked to the next one. */
  ghost function Links(ops: seq<Operand>, n: nat, d: nat): nat {
    if n == 0 then 0 else Links(ops, n - 1, d) + if n < |ops| && Linked(ops[n - 1], ops[n], d) then 1 else 0
  }

  lemma {:induction false} LinksRun(ops: seq<Operand>, a: nat, b: nat, d: nat)
    requires a <= b < |ops| && LinkedFrom(ops, a, b, d)
    ensures Links(ops, b, d) == Links(ops, a, d) + (b - a)
    decreases b
  {
    hide Linked;
    if a < b {
      LinksRun(ops, a, b - 1, d);
      assert Linked(ops[b - 1], ops[b], d);
    }
  }

  lemma {:induction false} PiecesLength(ops: seq<Operand>, news: seq<Operand>, cuts: seq<nat>, n: nat, d: nat)
    requires Pieces(ops, news, cuts, n, d)
    ensures |news| + Links(ops, n, d) == n
    decreases |news|
  {
    hide Stands, Linked;
    if |news| > 0 {
      var k := |news| - 1;
      assert PieceAt(ops, news, cuts, k, d);
      var before, c := news[..k], cuts[..k + 1];
      forall j: nat | j < k ensures PieceAt(ops, before, c, j, d) { assert PieceAt(ops, news, cuts, j, d); }
      PiecesLength(ops, before, c, cuts[k], d);
      LinksRun(ops, cuts[k], n - 1, d);
    }
  }

  /** Each link makes the list one operand shorter. */
  lemma SimplifiedLength(ops: seq<Operand>, news: seq<Operand>, d: nat)
    requires Simplified(ops, news, d)
    ensures |news| == |ops| - Links(ops, |ops|, d)
  {
    var cuts :| Pieces(ops, news, cuts, |ops|, d);
    PiecesLength(ops, news, cuts, |ops|, d);
  }

  ghost predicate IsReplacement(r: Operand, m: Operand, first: Operand, sd: nat, d: nat, total: int, same: bool)
    requires m.Slice? && first.Reshape?
  {
    d < |first.dims| && exists perm ::
      MovesAxis(perm, |m.starts|, sd, d) && r == Replacement(m, perm, first.dims, d, total, same)
  }

  lemma RunStands(ops: seq<Operand>, a: nat, b: nat, r: Operand, d: nat, sd: nat, m: Operand, total: int, same: bool)
    requires a < b < |ops| && ops[a].Reshape? && ops[a].src.Slice? && ops[b].Reshape? && ops[b].src.Slice?
    requires Candidate(ops[a], d, sd) && m == Merged(ops[a].src, ops[b].src.limits)
    requires d < |ops[a].dims| && ops[a].dims[d] == 1 && total == b + 1 - a
    requires sd < |Shape(ops[a].src)| && (same <==> Remove(Shape(ops[a].src), sd) == Remove(ops[a].dims, d))
    requires IsReplacement(r, m, ops[a], sd, d, total, same)
    ensures Stands(ops[a..b + 1], r, d)
  {
    hide Candidate, MovesAxis, Shape, Replacement, Remove;
    MergedSelf(ops[a].src, ops[b].src.limits, ops[b].src.limits);
    hide Merged;
    var run := ops[a..b + 1];
    assert run[0] == ops[a] && run[|run| - 1] == ops[b] && |run| * 1 == total;
  }

  /** The run from a to i, with its merged slice. */
  ghost predicate GroupSoFar(ops: seq<Operand>, a: nat, i: nat, slice: Operand, d: nat) {
    && a <= i < |ops| && LinkedFrom(ops, a, i, d) && ops[a].Reshape? && ops[a].src.Slice?
    && ops[i].Reshape? && ops[i].src.Slice? && slice == Merged(ops[a].src, ops[i].src.limits)
  }

  lemma GroupBegins(ops: seq<Operand>, i: nat, d: nat)
    requires i < |ops| && ops[i].Reshape? && ops[i].src.Slice?
    ensures GroupSoFar(ops, i, i, ops[i].src, d)
  {
    MergedSelf(ops[i].src, ops[i].src.limits, ops[i].src.limits);
  }

  lemma GroupGoesOn(ops: seq<Operand>, a: nat, i: nat, slice: Operand, d: nat)
    requires GroupSoFar(ops, a, i, slice, d) && i + 1 < |ops| && ops[i + 1].Reshape? && ops[i + 1].src.Slice?
    requires Linked(ops[i], ops[i + 1], d)
    ensures slice.Slice? && GroupSoFar(ops, a, i + 1, Merged(slice, ops[i + 1].src.limits), d)
  {
    hide Linked;
    MergedSelf(ops[a].src, ops[i].src.limits, ops[i + 1].src.limits);
    LinkedOn(ops, a, i, d);
  }

  lemma GroupDone(ops: seq<Operand>, news: seq<Operand>, cuts: seq<nat>, a: nat, i: nat, slice: Operand, r: Operand,
                  d: nat, sd: nat, total: int, same: bool)
    requires Pieces(ops, news, cuts, a, d) && GroupSoFar(ops, a, i, slice, d)
    requires i + 1 < |ops| ==> !Linked(ops[i], ops[i + 1], d)
    requires Candidate(ops[a], d, sd) && d < |ops[a].dims| && ops[a].dims[d] == 1 && total == i + 1 - a
    requires sd < |Shape(ops[a].src)| && (same <==> Remove(Shape(ops[a].src), sd) == Remove(ops[a].dims, d))
    requires a == i ==> r == ops[a]
    requires a < i ==> slice.Slice? && IsReplacement(r, slice, ops[a], sd, d, total, same)
    ensures Pieces(ops, news + [r], cuts + [i + 1], i + 1, d)
  {
    hide Candidate, Linked, Shape, Remove, IsReplacement, Pieces, Stands;
    if a == i { AloneStands(ops, i, d); } else { RunStands(ops, a, i, r, d, sd, slice, total, same); }
    PiecesNext(ops, news, cuts, a, i + 1, r, d);
  }

  /** `concatReshapeSliceSimplify`: where the operands it merges are placed well, the
      new list concatenates to the same tensor as the old one. */
  method ConcatReshapeSliceSimplify(operands: seq<Operand>, d: nat, rest: seq<int>)
    returns (changed: bool, newOperands: seq<Operand>)
    requires Joinable(operands, d, rest) && CrossSection(rest, d) && AllPlaced(operands, d)
    ensures SameTensor(newOperands, operands, d, rest)
    ensures changed <==> LinkedWithin(operands, |operands|, d)
    ensures !changed ==> newOperands == operands
    ensures Simplified(operands, newOperands, d)
  {
    hide Valid, Shape, Total, Concatenated, Joinable, SameTensor, AllPlaced, LinkedWithin, Linked, Follows,
         Shaped, Ends, Grouped, CrossSection, Merged, SamePlace, Candidate, Stands, Pieces, LinkedFrom, IsReplacement, GroupSoFar;
    changed, newOperands := false, [];
    ghost var cuts: seq<nat> := [0];
    NoPieces(operands, d);
    NothingSame(operands, d, rest);
    LinkedNext(operands, 0, d);
    var i := 0;
    while i < |operands|
      invariant i <= |operands| && SameTensor(newOperands, operands[..i], d, rest)
      invariant changed <==> LinkedWithin(operands, i, d)
      invariant !changed ==> newOperands == operands[..i]
      invariant Pieces(operands, newOperands, cuts, i, d)
    {
      var operand := operands[i];
      PrefixJoinable(operands, i, d, rest);
      LinkedNext(operands, i, d);
      ListValid(operands, i, d, rest);
      AloneStands(operands, i, d);
      var ok, sliceDim, same := Classify(operand, d);
      if !ok {
        if i + 1 < |operands| { NotLinked(operand, operands[i + 1], d); }
        SameRefl([operand], d, rest);
        SameConcat(newOperands, operands[..i], [operand], [operand], d, rest);
        PiecesNext(operands, newOperands, cuts, i, i + 1, operand, d);
        newOperands, cuts := newOperands + [operand], cuts + [i + 1];
        i := i + 1;
        continue;
      }
      ghost var a := i;
      GroupBegins(operands, i, d);
      GrowingStart(operands, i, d, sliceDim, rest);
      ghost var w, v := Remove(Shape(operand.src), sliceDim), Remove(rest, d);
      ghost var start, span := operands[..i], [operand];
      var slice, total, merged := operand.src, operand.dims[d], false;
      FirstTotal(operand, d, sliceDim, w, v, same, rest);
      while i + 1 < |operands|
        invariant i < |operands| && slice.Slice? && start == operands[..|start|]
        invariant Growing(operands, i, start, span, slice, d, sliceDim, w, v, rest)
        invariant total == |span| && (merged ==> |span| >= 2 && SamePlace(w, v, d))
        invariant operands[i].Reshape? && operands[i].dims == operand.dims
        invariant changed <==> LinkedWithin(operands, i, d)
        invariant !merged ==> span == [operand] && slice == operand.src
        invariant !changed ==> !merged && newOperands == start
        invariant total == i + 1 - a && (merged <==> a < i) && GroupSoFar(operands, a, i, slice, d)
        decreases |operands| - i
      {
        var next := operands[i + 1];
        ListValid(operands, i + 1, d, rest);
        LinkedNext(operands, i, d);
        ShapedCandidate(operands[i], d, sliceDim, w, v);
        LinkedIs(operands[i], next, d, sliceDim);
        var follows := CanFollow(slice, operands[i], next, sliceDim);
        if !follows {
          break;
        }
        GrowingNext(operands, i, start, span, slice, d, sliceDim, w, v, rest);
        FollowsDims(operands[i], next, d, sliceDim, w, v);
        GroupGoesOn(operands, a, i, slice, d);
        total := total + next.dims[d];
        slice, changed, merged, span := Merged(slice, next.src.limits), true, true, span + [next];
        i := i + 1;
      }
      LinkedNext(operands, i, d);
      var newOperand := Push(slice, operand, same, merged, total, d, sliceDim, span, w, v, rest);
      SameConcat(newOperands, start, [newOperand], span, d, rest);
      GroupDone(operands, newOperands, cuts, a, i, slice, newOperand, d, sliceDim, total, same);
      newOperands, cuts := newOperands + [newOperand], cuts + [i + 1];
      i := i + 1;
    }
    assert operands[..|operands|] == operands;
  }

  lemma NoPieces(ops: seq<Operand>, d: nat)
    ensures Pieces(ops, [], [0], 0, d)
  {
  }

  lemma AloneStands(ops: seq<Operand>, i: nat, d: nat)
    requires i < |ops|
    ensures Stands(ops[i..i + 1], ops[i], d) && LinkedFrom(ops, i, i, d)
  {
  }

  lemma LinkedOn(ops: seq<Operand>, a: nat, i: nat, d: nat)
    requires LinkedFrom(ops, a, i, d) && i + 1 < |ops| && Linked(ops[i], ops[i + 1], d)
    ensures LinkedFrom(ops, a, i + 1, d)
  {
    hide Linked;
  }

  lemma ListValid(ops: seq<Operand>, i: nat, d: nat, rest: seq<int>)
    requires Joinable(ops, d, rest) && i < |ops|
    ensures Valid(ops[i]) && d < |Shape(ops[i])| == |rest| && (ops[i].Reshape? ==> Shape(ops[i]) == ops[i].dims)
  {
  }

  lemma ShapedCandidate(e: Operand, d: nat, sd: nat, w: seq<int>, v: seq<int>)
    requires Shaped(e, d, sd, w, v)
    ensures Candidate(e, d, sd)
  {
  }

  lemma FirstTotal(e: Operand, d: nat, sd: nat, w: seq<int>, v: seq<int>, same: bool, rest: seq<int>)
    requires e.Reshape? && d < |e.dims| && sd < |Shape(e.src)| && d < |rest|
    requires w == Remove(Shape(e.src), sd) && v == Remove(rest, d) && Candidate(e, d, sd)
    requires Joinable([e], d, rest) && CrossSection(rest, d)
    requires same <==> Remove(Shape(e.src), sd) == Remove(e.dims, d)
    ensures e.dims[d] == 1 && Shaped(e, d, sd, w, v) && (same ==> w == v)
  {
    CandidateShaped(e, d, sd, rest);
  }

  lemma FollowsDims(e: Operand, f: Operand, d: nat, sd: nat, w: seq<int>, v: seq<int>)
    requires Shaped(e, d, sd, w, v) && Follows(e, f, sd)
    ensures f.Reshape? && f.dims == e.dims && f.src.Slice? && d < |f.dims| && f.dims[d] == 1
  {
    hide NonUnit;
  }

  // ---------------------------------------------------------------- the exact condition for a group

  /** The operands the pass takes together, whether they are placed well or not. */
  ghost predicate Chain(span: seq<Operand>, d: nat, sd: nat, w: seq<int>, v: seq<int>) {
    && |span| > 0 && (forall k | 0 <= k < |span| :: Shaped(span[k], d, sd, w, v))
    && forall k | 0 <= k < |span| - 1 :: Follows(span[k], span[k + 1], sd)
  }

  ghost function Start(e: Operand, sd: nat): int
    requires e.Reshape? && e.src.Slice? && sd < |e.src.starts|
  {
    e.src.starts[sd]
  }

  /** The slice that the pass makes of them. */
  ghost predicate MergedOf(m: Operand, span: seq<Operand>, d: nat, sd: nat, w: seq<int>, v: seq<int>) {
    && Chain(span, d, sd, w, v)
    && var e := span[0].src; var l := span[|span| - 1].src;
       e.Slice? && l.Slice? && m == Merged(e, l.limits)
  }

  /** All but the last slice end on a whole step. */
  ghost predicate UnitSteps(span: seq<Operand>, sd: nat)
  {
    forall k | 0 <= k < |span| - 1 ::
      span[k].Reshape? && span[k].src.Slice? && Valid(span[k].src) && sd < |span[k].src.starts| && WholeSteps(span[k].src, sd)
  }

  lemma ChainPrefix(span: seq<Operand>, n: nat, d: nat, sd: nat, w: seq<int>, v: seq<int>)
    requires Chain(span, d, sd, w, v) && 0 < n <= |span|
    ensures Chain(span[..n], d, sd, w, v)
  {
    hide Shaped, Follows;
    var p := span[..n];
    forall k | 0 <= k < |p| - 1 ensures Follows(p[k], p[k + 1], sd) { assert p[k] == span[k] && p[k + 1] == span[k + 1]; }
  }

  /** A chain of slices that end on whole steps is a group. */
  lemma {:induction false} ChainGrouped(span: seq<Operand>, m: Operand, d: nat, sd: nat, w: seq<int>, v: seq<int>, rest: seq<int>)
    requires MergedOf(m, span, d, sd, w, v) && UnitSteps(span, sd) && Joinable(span, d, rest) && Remove(rest, d) == v
    ensures Grouped(span, m, d, sd, w, v, rest) && Ends(m, span[|span| - 1].src, sd)
    decreases |span|
  {
    hide Grouped, Joinable, NonUnit, Ends, Shaped, Follows, Mergeable, WholeSteps, Shape, Valid;
    var n := |span| - 1;
    var f := span[n];
    PrefixJoinable(span, n, d, rest);
    ShapedLengths(f, d, sd, w, v);
    SliceLengths(f.src);
    if n == 0 {
      assert span == [f] && m == f.src;
      GroupStart(f, d, sd, w, v, rest);
      EndsStart(f.src, sd);
    } else {
      var p := span[..n];
      ChainPrefix(span, n, d, sd, w, v);
      var e := span[0].src;
      ShapedLengths(span[0], d, sd, w, v);
      ShapedLengths(span[n - 1], d, sd, w, v);
      var m' := Merged(e, span[n - 1].src.limits);
      forall k | 0 <= k < |p| - 1 ensures p[k].Reshape? && p[k].src.Slice? && Valid(p[k].src)
        && sd < |p[k].src.starts| && WholeSteps(p[k].src, sd) { assert p[k] == span[k]; }
      ChainGrouped(p, m', d, sd, w, v, rest);
      assert span == p + [f] && p[|p| - 1] == span[n - 1];
      EndsFollows(m', span[n - 1], f, sd);
      EndsWhole(m', span[n - 1].src, sd);
      GroupNext(p, m', f, d, sd, w, v, rest);
      NextEnds(m', f.src, sd);
      assert Merged(m', f.src.limits) == m;
    }
  }

  /** The slices of a chain differ along sd only, where each starts at the end of the
      one before and within a step of its start. */
  lemma {:induction false} ChainStarts(span: seq<Operand>, k: nat, d: nat, sd: nat, w: seq<int>, v: seq<int>)
    requires Chain(span, d, sd, w, v) && k < |span|
    ensures span[0].Reshape? && span[k].Reshape? && span[0].src.Slice? && span[k].src.Slice?
    ensures var e, f := span[0].src, span[k].src;
      && |e.starts| == |f.starts| == |w| + 1 && sd < |e.starts| && f.starts == e.starts[sd := f.starts[sd]]
      && f.src == e.src && f.strides == e.strides && |e.strides| == |w| + 1 && |f.limits| == |w| + 1
      && Valid(f) && f.strides[sd] > 0 && 0 < f.limits[sd] - f.starts[sd] <= f.strides[sd]
      && |e.limits| == |w| + 1 && f.limits == e.limits[sd := f.limits[sd]]
    ensures k > 0 ==> span[k - 1].Reshape? && span[k - 1].src.Slice? && sd < |span[k - 1].src.limits|
    ensures k > 0 ==> span[k].src.starts[sd] == span[k - 1].src.limits[sd]
  {
    hide Shaped, Follows, NonUnit, Mergeable;
    ShapedLengths(span[0], d, sd, w, v);
    ShapedLengths(span[k], d, sd, w, v);
    var f := span[k].src;
    SliceLengths(span[0].src);
    SliceLengths(f);
    UnitExtent(f, sd);
    if k > 0 {
      ChainStarts(span, k - 1, d, sd, w, v);
      assert Follows(span[k - 1], span[k - 1 + 1], sd);
      FollowsStart(span[k - 1], span[k], sd);
      var p := span[k - 1].src;
      assert f.starts == p.starts[sd := f.starts[sd]];
      assert f.limits == p.limits[sd := f.limits[sd]];
      assert f.starts == span[0].src.starts[sd := f.starts[sd]];
      assert f.limits == span[0].src.limits[sd := f.limits[sd]];
    } else {
      assert f.starts == f.starts[sd := f.starts[sd]] && f.limits == f.limits[sd := f.limits[sd]];
    }
  }

  lemma UnitExtent(f: Operand, sd: nat)
    requires f.Slice? && Valid(f) && sd < |Shape(f)| && Shape(f)[sd] == 1
    ensures f.strides[sd] > 0 && 0 < f.limits[sd] - f.starts[sd] <= f.strides[sd]
  {
    var x, st := f.limits[sd] - f.starts[sd] + f.strides[sd] - 1, f.strides[sd];
    assert x == st * (x / st) + x % st;
  }

  lemma FollowsStart(e: Operand, f: Operand, sd: nat)
    requires Follows(e, f, sd)
    ensures e.Reshape? && f.Reshape? && e.src.Slice? && f.src.Slice? && e.src.src == f.src.src
    ensures |e.src.starts| == |f.src.starts| == |e.src.limits| == |f.src.limits| && sd < |e.src.starts|
    ensures e.src.strides == f.src.strides && f.src.starts[sd] == e.src.limits[sd]
    ensures f.src.starts == e.src.starts[sd := f.src.starts[sd]]
    ensures f.src.limits == e.src.limits[sd := f.src.limits[sd]]
  {
  }

  /** Every operand of a chain has one element along d. */
  lemma {:induction false} ChainConcat(span: seq<Operand>, d: nat, sd: nat, w: seq<int>, v: seq<int>, rest: seq<int>, iv: Index, j: nat)
    requires Chain(span, d, sd, w, v) && Joinable(span, d, rest) && Remove(rest, d) == v && d < |rest|
    requires InBounds(iv, v) && j < |span| && d <= |iv|
    ensures Total(span, d, rest) == |span| && Valid(span[j]) && |Shape(span[j])| == |v| + 1
    ensures Concatenated(span, d, rest, Insert(iv, d, j)) == Element(span[j], Insert(iv, d, 0))
    decreases |span|
  {
    hide Joinable, Total, Concatenated, Element, Shape, Valid, Shaped, Follows;
    var n := |span| - 1;
    var f := span[n];
    PrefixJoinable(span, n, d, rest);
    assert span == span[..n] + [f];
    ShapedLengths(f, d, sd, w, v);
    ShapedLengths(span[j], d, sd, w, v);
    var idx := Insert(iv, d, j);
    OneOperand(f, d, rest, Insert(iv, d, 0));
    if n == 0 {
      assert span == [f];
      OneOperand(f, d, rest, idx);
    } else {
      ChainPrefix(span, n, d, sd, w, v);
      ChainConcat(span[..n], d, sd, w, v, rest, iv, if j < n then j else 0);
      ConcatSplit(span[..n], [f], d, rest, idx);
      assert j == n ==> idx[d := 0] == Insert(iv, d, 0);
    }
  }

  /** The element of a leaf that a slice of it has at an index. */
  lemma LeafCell(e: Operand, idx: Index)
    requires e.Slice? && Valid(e) && e.src.Leaf? && |idx| == |e.starts|
    ensures |Shape(e)| == |idx| == |e.strides| && Element(e, idx) == Cell(e.src.id, Source(e.starts, e.strides, idx))
  {
    SliceElement(e, idx);
  }

  lemma AcrossOrigin(w: seq<int>, v: seq<int>)
    requires NonUnit(w) == NonUnit(v) && Positive(w) && Positive(v)
    ensures Across(w, v, Origin(v)) == Origin(w) && InBounds(Origin(w), w) && InBounds(Origin(v), v)
  {
    SameKeptZeros(w, v);
    AcrossBounds(w, v, Origin(v));
    KeptUnique(w, Across(w, v, Origin(v)), Origin(w));
  }

  /** The first element of operand j. */
  lemma OldCell(span: seq<Operand>, d: nat, sd: nat, w: seq<int>, v: seq<int>, rest: seq<int>, j: nat)
    requires Chain(span, d, sd, w, v) && Joinable(span, d, rest) && Remove(rest, d) == v && d < |rest| && j < |span|
    requires span[0].Reshape? && span[0].src.Slice? && span[0].src.src.Leaf? && d <= |v|
    ensures var e, f := span[0].src, span[j].src;
      && f.Slice? && |f.starts| == |e.strides| == |w| + 1 && sd <= |w|
      && Total(span, d, rest) == |span|
      && Concatenated(span, d, rest, Insert(Origin(v), d, j))
         == Cell(e.src.id, Source(f.starts, e.strides, Insert(Origin(w), sd, 0)))
  {
    hide Joinable, Total, Concatenated, Element, Shape, Valid, Shaped, Follows, Across, NonUnit;
    ShapedLengths(span[j], d, sd, w, v);
    AcrossOrigin(w, v);
    ChainStarts(span, j, d, sd, w, v);
    ChainConcat(span, d, sd, w, v, rest, Origin(v), j);
    OldReads(span[j], d, sd, w, v, Origin(v));
    LeafCell(span[j].src, Insert(Origin(w), sd, 0));
  }

  /** If a slice of a leaf has at y, x the element that another has at its origin, then
      y is the origin and x the number of steps between them. */
  lemma SameCell(starts: seq<int>, others: seq<int>, strides: seq<int>, y: Index, w: seq<int>, sd: nat, x: int)
    requires |starts| == |others| == |strides| == |w| + 1 && |y| == |w| && sd <= |w|
    requires others == starts[sd := others[sd]] && forall k | 0 <= k < |strides| :: strides[k] > 0
    requires Source(starts, strides, Insert(y, sd, x)) == Source(others, strides, Insert(Origin(w), sd, 0))
    ensures y == Origin(w) && starts[sd] + strides[sd] * x == others[sd]
  {
    var a, b := Source(starts, strides, Insert(y, sd, x)), Source(others, strides, Insert(Origin(w), sd, 0));
    assert a[sd] == b[sd];
    forall k | 0 <= k < |w| ensures y[k] == 0 {
      var l := if k < sd then k else k + 1;
      assert a[l] == b[l] && Insert(y, sd, x)[l] == y[k];
      ZeroStep(starts[l], strides[l], y[k]);
    }
  }

  lemma ZeroStep(a: int, s: int, y: int)
    requires s > 0 && a + s * y == a
    ensures y == 0
  {
  }

  lemma {:induction false} ChainSlice(span: seq<Operand>, m: Operand, d: nat, sd: nat, w: seq<int>, v: seq<int>)
    requires MergedOf(m, span, d, sd, w, v)
    ensures m.Slice? && Valid(m) && span[0].Reshape? && span[0].src.Slice? && m.starts == span[0].src.starts
    ensures m.src == span[0].src.src && m.strides == span[0].src.strides && |m.starts| == |w| + 1 && sd <= |w|
    ensures |Shape(m)| == |w| + 1 && Shape(m) == Insert(w, sd, Shape(m)[sd])
    decreases |span|
  {
    hide Shaped, Follows, NonUnit, Mergeable, Shape, Valid;
    var n := |span| - 1;
    ShapedLengths(span[0], d, sd, w, v);
    ShapedLengths(span[n], d, sd, w, v);
    if n == 0 {
      assert m == span[0].src;
    } else {
      ShapedLengths(span[n - 1], d, sd, w, v);
      ChainPrefix(span, n, d, sd, w, v);
      var m' := Merged(span[0].src, span[n - 1].src.limits);
      assert span[..n][n - 1] == span[n - 1] && span[..n][0] == span[0];
      ChainSlice(span[..n], m', d, sd, w, v);
      ChainStarts(span, n - 1, d, sd, w, v);
      assert Follows(span[n - 1], span[n - 1 + 1], sd);
      FollowsMerged(span[0].src, m', span[n - 1], span[n], sd);
      MergedShape(m', span[n].src, sd);
      assert Merged(m', span[n].src.limits) == m;
      SetInserted(w, sd, Shape(m')[sd], Shape(m)[sd]);
    }
  }

  lemma SetInserted(w: seq<int>, sd: nat, x: int, y: int)
    requires sd <= |w|
    ensures Insert(w, sd, x)[sd := y] == Insert(w, sd, y)
  {
  }

  lemma FollowsMerged(e: Operand, m: Operand, l: Operand, f: Operand, sd: nat)
    requires Follows(l, f, sd) && e.Slice? && l.src.Slice? && m == Merged(e, l.src.limits) && Valid(m)
    requires |e.starts| == |l.src.starts| && sd < |e.starts| && l.src.starts == e.starts[sd := l.src.starts[sd]]
    requires l.src.src == e.src && l.src.strides == e.strides
    ensures f.Reshape? && f.src.Slice? && Mergeable(m, f.src, sd)
  {
  }

  /** The element of the new operand at the first index of slice j comes from an index
      of the larger slice at the same row-major position. */
  lemma NewCell(m: Operand, perm: seq<nat>, sd: nat, d: nat, w: seq<int>, v: seq<int>, k: nat, same: bool, rest: seq<int>, j: nat)
    returns (y: Index, x: int)
    requires sd <= |w| && d <= |w| && d <= |v| && Valid(m) && Shape(m) == Insert(w, sd, k) && MovesAxis(perm, |w| + 1, sd, d)
    requires NonUnit(w) == NonUnit(v) && Positive(w) && Positive(v) && (same ==> w == v) && d < |rest| && Remove(rest, d) == v
    requires j < k
    ensures |y| == |w| && InBounds(Insert(y, d, x), Insert(w, d, k))
    ensures Linear(Insert(y, d, x), Insert(w, d, k)) == Linear(Insert(Origin(v), d, j), Insert(v, d, k))
    ensures var r := Replacement(m, perm, Insert(v, d, 1), d, k, same);
      Valid(r) && |Shape(r)| == |v| + 1 && Element(r, Insert(Origin(v), d, j)) == Element(m, Insert(y, sd, x))
  {
    hide NonUnit, Product, Linear, MovesAxis, Shape, Valid, Element, Insert, Remove;
    ReplacementShape(m, perm, sd, d, w, v, k, same, rest);
    TransposedShape(m, perm, sd, d, w, k);
    var idx, dims, t := Insert(Origin(v), d, j), Insert(v, d, k), Insert(w, d, k);
    InsertBounds(Origin(v), v, d, j, k);
    if same {
      y, x := Origin(w), j;
    } else {
      InsertPositive(w, d, k);
      InsertPositive(v, d, k);
      LinearThenMulti(idx, dims);
      ProductInsert(w, d, k);
      ProductInsert(v, d, k);
      ProductNonUnit(w);
      ProductNonUnit(v);
      MultiThenLinear(Linear(idx, dims), t);
      var at := Multi(Linear(idx, dims), t);
      y, x := Remove(at, d), at[d];
      InsertRemove(at, d, x);
      assert at[d := x] == at;
      InsertSet(v, d, 1, k);
      ReshapeElement(Replacement(m, perm, Insert(v, d, 1), d, k, same), idx, at);
    }
    TransposedElement(m, perm, sd, d, w, k, y, x);
  }

  /** The new operand can have as many elements along d as the group only if the
      larger slice has as many along sd. */
  lemma SameExtent(m: Operand, perm: seq<nat>, sd: nat, d: nat, w: seq<int>, v: seq<int>, k: nat, same: bool)
    requires sd <= |w| && d <= |w| && d <= |v| && Valid(m) && |Shape(m)| == |w| + 1 && Shape(m) == Insert(w, sd, Shape(m)[sd])
    requires MovesAxis(perm, |w| + 1, sd, d) && NonUnit(w) == NonUnit(v) && Positive(w) && Positive(v) && (same ==> w == v)
    requires var r := Replacement(m, perm, Insert(v, d, 1), d, k, same);
      Valid(r) && |Shape(r)| == |v| + 1 && Shape(r)[d] == k
    ensures Shape(m)[sd] == k
  {
    hide NonUnit, Product, MovesAxis;
    var x := Shape(m)[sd];
    TransposedShape(m, perm, sd, d, w, x);
    if !same {
      InsertSet(v, d, 1, k);
      ProductInsert(w, d, x);
      ProductInsert(v, d, k);
      ProductNonUnit(w);
      ProductNonUnit(v);
      ProductPositive(w);
      SameMultiple(Product(w), x, k);
    }
  }

  lemma SameMultiple(p: int, x: int, k: int)
    requires p > 0 && p * x == p * k
    ensures x == k
  {
    if x < k { MulMonotone(x + 1, k, p); }
    if k < x { MulMonotone(k + 1, x, p); }
  }

  /** Where the new operand has the elements of the group, slice j starts j steps after
      the first, and the axis stands at the same place. */
  lemma GroupPlaces(span: seq<Operand>, m: Operand, perm: seq<nat>, d: nat, sd: nat, w: seq<int>, v: seq<int>,
                    same: bool, rest: seq<int>, j: nat)
    requires MergedOf(m, span, d, sd, w, v) && |span| >= 2 && MovesAxis(perm, |w| + 1, sd, d)
    requires span[0].Reshape? && span[0].src.Slice? && span[0].src.src.Leaf? && (same ==> w == v)
    requires d <= |v| && d <= |w| && sd <= |w| && d < |rest| && Remove(rest, d) == v
    requires SameTensor([Replacement(m, perm, Insert(v, d, 1), d, |span|, same)], span, d, rest)
    requires 0 < j < |span|
    ensures m.Slice? && span[j].Reshape? && span[j].src.Slice?
    ensures |m.starts| == |m.strides| == |span[j].src.starts| == |w| + 1
    ensures j == 1 || SamePlace(w, v, d) ==>
      SamePlace(w, v, d) && m.starts[sd] + m.strides[sd] * j == span[j].src.starts[sd]
  {
    hide Total, Concatenated, Element, Shape, Valid, Shaped, Follows, NonUnit, Across, MovesAxis, Linear, Product,
         SamePlace, Insert, Remove, Origin, Replacement, Source;
    var k, r := |span|, Replacement(m, perm, Insert(v, d, 1), d, |span|, same);
    var idx := Insert(Origin(v), d, j);
    ShapedLengths(span[0], d, sd, w, v);
    ChainSlice(span, m, d, sd, w, v);
    Bounds([r], d, rest);
    assert Valid([r][0]);
    SameSides([r], span, d, rest);
    OldCell(span, d, sd, w, v, rest, j);
    OneOperand(r, d, rest, idx);
    SameExtent(m, perm, sd, d, w, v, k, same);
    AcrossOrigin(w, v);
    InsertBounds(Origin(v), v, d, j, k);
    RestInserted(rest, v, d, k);
    assert Concatenated([r], d, rest, idx) == Concatenated(span, d, rest, idx);
    var y, x := NewCell(m, perm, sd, d, w, v, k, same, rest, j);
    LeafCell(m, Insert(y, sd, x));
    ChainStarts(span, j, d, sd, w, v);
    StridesPositive(m);
    SameCell(m.starts, span[j].src.starts, m.strides, y, w, sd, x);
    StepOf(span, m, j, x, d, sd, w, v);
    WhichStep(w, v, d, k, j, x);
  }

  lemma RestInserted(rest: seq<int>, v: seq<int>, d: nat, k: int)
    requires d < |rest| && Remove(rest, d) == v
    ensures d <= |v| && rest[d := k] == Insert(v, d, k)
  {
    InsertRemove(rest, d, k);
  }

  lemma StridesPositive(m: Operand)
    requires m.Slice? && Valid(m)
    ensures |m.strides| == |m.starts| && forall k | 0 <= k < |m.strides| :: m.strides[k] > 0
  {
  }

  /** The second slice starts one step after the first if it starts any whole number of
      steps after it. */
  lemma StepOf(span: seq<Operand>, m: Operand, j: nat, x: int, d: nat, sd: nat, w: seq<int>, v: seq<int>)
    requires MergedOf(m, span, d, sd, w, v) && 0 < j < |span| && span[0].Reshape? && span[0].src.Slice? && span[j].Reshape? && span[j].src.Slice?
    requires m.Slice? && m.starts == span[0].src.starts && m.strides == span[0].src.strides && sd < |m.starts| && sd < |m.strides| && sd < |span[j].src.starts|
    requires m.starts[sd] + m.strides[sd] * x == span[j].src.starts[sd]
    ensures j == 1 ==> x == 1
  {
    hide Shaped, Follows, NonUnit, Shape, Valid;
    ChainStarts(span, 0, d, sd, w, v);
    ChainStarts(span, j, d, sd, w, v);
    if j == 1 { OneStep(m.strides[sd], x, span[1].src.starts[sd] - m.starts[sd]); }
  }

  lemma OneStep(s: int, x: int, y: int)
    requires s > 0 && s * x == y && 0 < y <= s
    ensures x == 1
  {
    if x <= 0 { StepBack(s, 0, -x); MulMonotone(0, -x, s); }
    if x >= 2 { Above(s, x - 1); StepBack(s, x, 1); }
  }

  /** Equal row-major positions put the axis at the same place. */
  lemma WhichStep(w: seq<int>, v: seq<int>, d: nat, k: nat, j: nat, x: int)
    requires d <= |w| && d <= |v| && Positive(w) && Positive(v) && NonUnit(w) == NonUnit(v) && k >= 2 && 0 < j < k
    requires InBounds(Insert(Origin(w), d, x), Insert(w, d, k)) && (j == 1 ==> x == 1)
    requires Linear(Insert(Origin(w), d, x), Insert(w, d, k)) == Linear(Insert(Origin(v), d, j), Insert(v, d, k))
    ensures j == 1 || SamePlace(w, v, d) ==> SamePlace(w, v, d) && x == j
  {
    hide NonUnit, Linear, Product, SamePlace, Insert, Kept, Origin;
    if j == 1 {
      UnitPositions(w, d, k);
      UnitPositions(v, d, k);
      if !SamePlace(w, v, d) { PlacesApart(w, v, d); }
    }
    if SamePlace(w, v, d) {
      OriginBounds(w);
      OriginBounds(v);
      SameKeptZeros(w, v);
      SamePositions(w, Origin(w), v, Origin(v), d, k, j);
      InsertBounds(Origin(w), w, d, j, k);
      InsertPositive(w, d, k);
      LinearInjective(Insert(Origin(w), d, x), Insert(Origin(w), d, j), Insert(w, d, k));
      assert Insert(Origin(w), d, x)[d] == x && Insert(Origin(w), d, j)[d] == j;
    }
  }

  lemma OriginBounds(w: seq<int>)
    requires Positive(w)
    ensures InBounds(Origin(w), w)
  {
  }

  /** The new operand is the same tensor as the group exactly when all but the last
      slice end on a whole step and the axis has as many sizes other than one before it
      in the slice as in the result. */
  lemma GroupExact(span: seq<Operand>, m: Operand, perm: seq<nat>, d: nat, sd: nat, w: seq<int>, v: seq<int>,
                   same: bool, rest: seq<int>)
    requires MergedOf(m, span, d, sd, w, v) && |span| >= 2 && MovesAxis(perm, |w| + 1, sd, d)
    requires span[0].Reshape? && span[0].src.Slice? && span[0].src.src.Leaf? && (same ==> w == v)
    requires d <= |v| && d <= |w| && sd <= |w| && Joinable(span, d, rest) && d < |rest| && Remove(rest, d) == v
    ensures SameTensor([Replacement(m, perm, Insert(v, d, 1), d, |span|, same)], span, d, rest)
       <==> UnitSteps(span, sd) && SamePlace(w, v, d)
  {
    hide SameTensor, Joinable, SamePlace, Shaped, Follows, MovesAxis, NonUnit, Remove, Insert, Replacement, Grouped;
    if UnitSteps(span, sd) && SamePlace(w, v, d) {
      ChainGrouped(span, m, d, sd, w, v, rest);
      ReplacementKeeps(span, m, perm, d, sd, w, v, same, rest);
    }
    if SameTensor([Replacement(m, perm, Insert(v, d, 1), d, |span|, same)], span, d, rest) {
      GroupPlaces(span, m, perm, d, sd, w, v, same, rest, 1);
      forall j | 0 <= j < |span| - 1
        ensures span[j].Reshape? && span[j].src.Slice? && Valid(span[j].src) && sd < |span[j].src.starts| && WholeSteps(span[j].src, sd)
      {
        WholeBetween(span, m, perm, d, sd, w, v, same, rest, j);
      }
    }
  }

  lemma WholeBetween(span: seq<Operand>, m: Operand, perm: seq<nat>, d: nat, sd: nat, w: seq<int>, v: seq<int>,
                     same: bool, rest: seq<int>, j: nat)
    requires MergedOf(m, span, d, sd, w, v) && |span| >= 2 && MovesAxis(perm, |w| + 1, sd, d)
    requires span[0].Reshape? && span[0].src.Slice? && span[0].src.src.Leaf? && (same ==> w == v)
    requires d <= |v| && d <= |w| && sd <= |w| && d < |rest| && Remove(rest, d) == v && SamePlace(w, v, d)
    requires SameTensor([Replacement(m, perm, Insert(v, d, 1), d, |span|, same)], span, d, rest) && j < |span| - 1
    ensures span[j].Reshape? && span[j].src.Slice? && Valid(span[j].src) && sd < |span[j].src.starts| && WholeSteps(span[j].src, sd)
  {
    hide SameTensor, SamePlace, Shaped, Follows, MovesAxis, NonUnit, Remove, Insert, Replacement, Shape, Valid;
    GroupPlaces(span, m, perm, d, sd, w, v, same, rest, j + 1);
    ChainStarts(span, j, d, sd, w, v);
    ChainStarts(span, j + 1, d, sd, w, v);
    if j > 0 { GroupPlaces(span, m, perm, d, sd, w, v, same, rest, j); }
    var f, st := span[j].src, m.strides[sd];
    StepBack(st, j + 1, j);
    assert f.limits[sd] - f.starts[sd] == st * 1;
    StepRemainder(f.limits[sd] - f.starts[sd], 1, st);
  }

  // ---------------------------------------------------------------- groups that are not placed well

  /** The slice of extent one at j of the first dimension of a 2 x 3 x 2 tensor, and
      its reshape to 1 x 3 x 1 x 2. */
  function Sheet(j: int): Operand {
    Slice(Leaf(0, [2, 3, 2]), [j, 0, 0], [j + 1, 3, 2], [1, 1, 1])
  }

  function Reshaped(j: int): Operand {
    Reshape(Sheet(j), [1, 3, 1, 2])
  }

  /** A dimension of size one inserted before the place of the concatenation: the pass
      merges the two operands, and the first element of the second becomes another one. */
  lemma InsertedBefore()
    ensures Candidate(Reshaped(0), 2, 0) && Follows(Reshaped(0), Reshaped(1), 0)
    ensures var m := Merged(Sheet(0), Sheet(1).limits);
      var r := Replacement(m, [1, 2, 0], [1, 3, 1, 2], 2, 2, false);
      && MovesAxis([1, 2, 0], 3, 0, 2) && Valid(r) && Shape(r) == [1, 3, 2, 2]
      && Valid(Reshaped(1)) && Shape(Reshaped(1)) == [1, 3, 1, 2]
      && Element(Reshaped(1), [0, 0, 0, 0]) == Cell(0, [1, 0, 0])
      && Element(r, [0, 0, 1, 0]) == Cell(0, [0, 0, 1])
  {
    SheetsLinked();
    SheetOld();
    SheetNew();
  }

  lemma SheetProducts()
    ensures Product([3, 2, 2]) == 12 && Product([1, 3, 2, 2]) == 12 && Product([1, 3, 2]) == 6 && Product([1, 3, 1, 2]) == 6
  {
    ProductCons(2, []);
    ProductCons(2, [2]);
    ProductCons(3, [2, 2]);
    ProductCons(1, [3, 2, 2]);
    ProductCons(3, [2]);
    ProductCons(1, [3, 2]);
    ProductCons(1, [2]);
    ProductCons(3, [1, 2]);
    ProductCons(1, [3, 1, 2]);
    assert [2] + [] == [2] && [2] + [2] == [2, 2] && [3] + [2, 2] == [3, 2, 2] && [1] + [3, 2, 2] == [1, 3, 2, 2];
    assert [3] + [2] == [3, 2] && [1] + [3, 2] == [1, 3, 2] && [1] + [2] == [1, 2] && [3] + [1, 2] == [3, 1, 2];
    assert [1] + [3, 1, 2] == [1, 3, 1, 2];
    assert Product([]) == 1;
  }

  lemma SheetShape(j: int)
    requires 0 <= j < 2
    ensures Valid(Sheet(j)) && Shape(Sheet(j)) == [1, 3, 2] && Valid(Reshaped(j)) && Shape(Reshaped(j)) == [1, 3, 1, 2]
  {
    hide Product;
    SheetProducts();
    assert Shape(Sheet(j)) == [1, 3, 2];
    assert Valid(Leaf(0, [2, 3, 2]));
  }

  lemma SheetsLinked()
    ensures Candidate(Reshaped(0), 2, 0) && Follows(Reshaped(0), Reshaped(1), 0)
  {
    hide Product, Inserted;
    SheetShape(0);
    SheetShape(1);
    assert Remove(Shape(Sheet(0)), 0) == [3, 2] && Remove([1, 3, 1, 2], 2) == [1, 3, 2];
    InsertedSheet();
  }

  lemma InsertedSheet()
    ensures Inserted([3, 2], [1, 3, 2])
  {
    assert Inserted([], []);
    assert [2][1..] == [] && [3, 2][1..] == [2] && [1, 3, 2][1..] == [3, 2];
    assert Inserted([2], [2]);
    assert Inserted([3, 2], [3, 2]);
  }

  lemma SheetBounds()
    ensures InBounds([0, 0, 0, 0], [1, 3, 1, 2]) && InBounds([0, 0, 0], [1, 3, 2]) && Positive([1, 3, 2])
    ensures Linear([0, 0, 0, 0], [1, 3, 1, 2]) == 0 == Linear([0, 0, 0], [1, 3, 2])
  {
    hide Product, Linear;
    LinearZero([0, 0, 0, 0], [1, 3, 1, 2]);
    LinearZero([0, 0, 0], [1, 3, 2]);
  }

  lemma SheetOld()
    ensures Valid(Reshaped(1)) && Shape(Reshaped(1)) == [1, 3, 1, 2]
    ensures Element(Reshaped(1), [0, 0, 0, 0]) == Cell(0, [1, 0, 0])
  {
    hide Product, Linear, Element, Valid, Shape, InBounds, Positive;
    SheetShape(1);
    SheetBounds();
    ReshapeElement(Reshaped(1), [0, 0, 0, 0], [0, 0, 0]);
    LeafCell(Sheet(1), [0, 0, 0]);
    assert Source([1, 0, 0], [1, 1, 1], [0, 0, 0]) == [1, 0, 0];
  }

  lemma NewBounds()
    ensures InBounds([0, 0, 1, 0], [1, 3, 2, 2]) && InBounds([0, 1, 0], [3, 2, 2]) && Positive([3, 2, 2]) && Positive([1, 3, 2])
    ensures Insert([3, 2], 0, 2) == [2, 3, 2] && Insert([3, 2], 2, 2) == [3, 2, 2] && Insert([1, 3, 2], 2, 2) == [1, 3, 2, 2]
    ensures Remove([1, 3, 1, 2], 2) == [1, 3, 2] && Insert([1, 3, 2], 2, 1) == [1, 3, 1, 2]
    ensures Insert([0, 1], 2, 0) == [0, 1, 0] && Insert([0, 1], 0, 0) == [0, 0, 1]
  {
  }

  lemma SheetNew()
    ensures var m := Merged(Sheet(0), Sheet(1).limits);
      var r := Replacement(m, [1, 2, 0], [1, 3, 1, 2], 2, 2, false);
      && MovesAxis([1, 2, 0], 3, 0, 2) && Valid(r) && Shape(r) == [1, 3, 2, 2]
      && Element(r, [0, 0, 1, 0]) == Cell(0, [0, 0, 1])
  {
    hide Product, Linear, Element, Valid, Shape, InBounds, Positive, Insert, Remove, NonUnit, Inserted;
    var m := Merged(Sheet(0), Sheet(1).limits);
    SheetMerged();
    NewBounds();
    InsertedSheet();
    InsertedNonUnit([3, 2], [1, 3, 2]);
    ReplacementShape(m, [1, 2, 0], 0, 2, [3, 2], [1, 3, 2], 2, false, [1, 3, 1, 2]);
    var r := Replacement(m, [1, 2, 0], [1, 3, 1, 2], 2, 2, false);
    TransposedShape(m, [1, 2, 0], 0, 2, [3, 2], 2);
    SheetLinear();
    assert r.dims == [1, 3, 2, 2];
    ReshapeElement(r, [0, 0, 1, 0], [0, 1, 0]);
    TransposedElement(m, [1, 2, 0], 0, 2, [3, 2], 2, [0, 1], 0);
    LeafCell(m, [0, 0, 1]);
    assert Source([0, 0, 0], [1, 1, 1], [0, 0, 1]) == [0, 0, 1];
  }

  lemma SheetMerged()
    ensures var m := Merged(Sheet(0), Sheet(1).limits); Valid(m) && Shape(m) == [2, 3, 2]
  {
    var m := Merged(Sheet(0), Sheet(1).limits);
    assert Valid(Leaf(0, [2, 3, 2]));
    assert Shape(m) == [2, 3, 2];
  }

  lemma SheetLinear()
    ensures Linear([0, 0, 1, 0], [1, 3, 2, 2]) == 2 == Linear([0, 1, 0], [3, 2, 2])
  {
    hide Product, Linear;
    LinearUnit([0, 0, 1, 0], [1, 3, 2, 2], 2);
    LinearUnit([0, 1, 0], [3, 2, 2], 1);
    assert [1, 3, 2, 2][3..] == [2] && [3, 2, 2][2..] == [2];
    ProductTwo();
  }

  lemma ProductTwo()
    ensures Product([2]) == 2
  {
    assert [2][1..] == [];
  }

  /** Slices with stride 2 that are one apart pass the test as well: 0:1:2 and 1:2:2 of
      two elements become 0:2:2, which has one element. */
  lemma StridedGroup()
    ensures var leaf := Leaf(0, [2]);
      var s, t := Slice(leaf, [0], [1], [2]), Slice(leaf, [1], [2], [2]);
      && Candidate(Reshape(s, [1]), 0, 0) && Follows(Reshape(s, [1]), Reshape(t, [1]), 0)
      && SamePlace(Remove(Shape(s), 0), Remove([1], 0), 0) && !WholeSteps(s, 0)
      && Shape(Merged(s, t.limits)) == [1] && Shape(s) == [1] && Shape(t) == [1]
  {
    var leaf := Leaf(0, [2]);
    var s, t := Slice(leaf, [0], [1], [2]), Slice(leaf, [1], [2], [2]);
    assert Valid(leaf) && Shape(s) == [1] && Shape(t) == [1] && Shape(Merged(s, t.limits)) == [1];
    assert Valid(s) && Valid(t) && Valid(Reshape(s, [1]));
    assert Remove([1], 0) == [];
  }

  function Hollow(j: int): Operand {
    Slice(Leaf(0, [2, 0]), [j, 0], [j + 1, 0], [1, 1])
  }

  /** Empty slices that a reshape makes longer pass the test as well: two slices of shape
      1 x 0, each seen as 5 x 0, become 2 x 0 where 10 x 0 is due. */
  lemma EmptyGroup()
    ensures var e, f := Reshape(Hollow(0), [5, 0]), Reshape(Hollow(1), [5, 0]);
      && Valid(e) && Valid(f) && Candidate(e, 0, 0) && Follows(e, f, 0) && MovesAxis([0, 1], 2, 0, 0)
      && Shape(Replacement(Merged(Hollow(0), Hollow(1).limits), [0, 1], [5, 0], 0, 10, true)) == [2, 0]
  {
    HollowCandidate(0);
    HollowCandidate(1);
    HollowMerged();
    NothingMoved();
    hide Valid, Candidate, Mergeable, MovesAxis, Shape;
  }

  lemma NothingMoved()
    ensures MovesAxis([0, 1], 2, 0, 0)
  {
  }

  lemma HollowShape(j: int)
    requires 0 <= j < 2
    ensures Valid(Hollow(j)) && Shape(Hollow(j)) == [1, 0] && Shape(Leaf(0, [2, 0])) == [2, 0]
  {
    assert Valid(Leaf(0, [2, 0]));
  }

  lemma HollowCandidate(j: int)
    requires 0 <= j < 2
    ensures Valid(Reshape(Hollow(j), [5, 0])) && Candidate(Reshape(Hollow(j), [5, 0]), 0, 0)
  {
    HollowShape(j);
    ProductZero(1);
    ProductZero(5);
    assert IsSliceDim(Hollow(j), 0);
    hide Valid, Shape;
    assert Remove([1, 0], 0) == [0] && Remove([5, 0], 0) == [0];
  }

  lemma ProductZero(a: int)
    ensures Product([a, 0]) == 0
  {
    assert [a, 0][1..] == [0];
  }

  lemma HollowMerged()
    ensures Mergeable(Hollow(0), Hollow(1), 0)
    ensures Shape(Replacement(Merged(Hollow(0), Hollow(1).limits), [0, 1], [5, 0], 0, 10, true)) == [2, 0]
  {
    HollowShape(0);
    HollowShape(1);
    hide Valid;
    assert Shape(Merged(Hollow(0), Hollow(1).limits)) == [2, 0];
  }

  // ---------------------------------------------------------------- what is merged

  /** The element of index j along sd, the dimension kept with size one. */
  function RowOf(src: Operand, sd: nat, j: int): Operand
    requires sd < |Shape(src)|
  {
    var s := Shape(src);
    Slice(src, Zeros(|s|)[sd := j], s[sd := j + 1], Ones(|s|))
  }

  /** Elements that follow each other along any dimension of size two or more are merged,
      under any reshape that keeps the other dimensions up to ones and has room for the
      dimension in the rank of the source. */
  lemma RowsMerge(src: Operand, sd: nat, j: nat, dims: seq<int>, d: nat)
    requires Valid(src) && sd < |Shape(src)| && j + 1 < Shape(src)[sd] && d < |dims| && d < |Shape(src)|
    requires Fits(Remove(Shape(src), sd), Remove(dims, d)) && NonNegative(dims)
    requires Product(dims) == Product(Shape(src)[sd := 1])
    ensures Linked(Reshape(RowOf(src, sd, j), dims), Reshape(RowOf(src, sd, j + 1), dims), d)
  {
    var a, b := RowOf(src, sd, j), RowOf(src, sd, j + 1);
    RowShape(src, sd, j);
    RowShape(src, sd, j + 1);
    RemoveSet(Shape(src), sd);
    hide Shape, Valid, Fits, Product, Remove;
    RowNarrow(src, sd, j);
    RowValid(a, dims);
    assert Candidate(Reshape(a, dims), d, sd);
    assert Follows(Reshape(a, dims), Reshape(b, dims), sd);
  }

  lemma RowShape(src: Operand, sd: nat, j: nat)
    requires Valid(src) && sd < |Shape(src)| && j < Shape(src)[sd]
    ensures Valid(RowOf(src, sd, j)) && Shape(RowOf(src, sd, j)) == Shape(src)[sd := 1]
  {
    ShapeNonNegative(src);
    var s, e := Shape(src), RowOf(src, sd, j);
    assert Valid(e);
    forall k | 0 <= k < |s| ensures Shape(e)[k] == s[sd := 1][k] {
      assert Extent(e.starts[k], e.limits[k], 1) == e.limits[k] - e.starts[k];
    }
  }

  lemma RowNarrow(src: Operand, sd: nat, j: nat)
    requires Valid(src) && sd < |Shape(src)| && j + 1 < Shape(src)[sd]
    requires Valid(RowOf(src, sd, j)) && Shape(RowOf(src, sd, j)) == Shape(src)[sd := 1]
    ensures IsSliceDim(RowOf(src, sd, j), sd)
  {
  }

  lemma RowValid(e: Operand, dims: seq<int>)
    requires Valid(e) && NonNegative(dims) && Product(dims) == Product(Shape(e))
    ensures Valid(Reshape(e, dims))
  {
  }

  lemma RemoveSet(s: seq<int>, sd: nat)
    requires sd < |s|
    ensures Remove(s[sd := 1], sd) == Remove(s, sd)
  {
  }
}
