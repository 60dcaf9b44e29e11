/** Merging neighbouring slices below a concatenation, `concatSliceSimplify`. */
module ConcatSlices {
  import opened RowMajor
  import opened Operands

  // ---------------------------------------------------------------- merging two slices

  /** The two slices join along d: the second starts where the first ends. */
  predicate Adjacent(d: nat, starts: seq<int>, others: seq<int>, limits: seq<int>, otherLimits: seq<int>,
                     strides: seq<int>, otherStrides: seq<int>)
    requires |starts| == |others| == |limits| == |otherLimits| == |strides| == |otherStrides|
  {
    forall k | 0 <= k < |starts| ::
      strides[k] == otherStrides[k]
      && if k == d then limits[k] == others[k] else starts[k] == others[k] && limits[k] == otherLimits[k]
  }

  /** `canMergeSlicesAlongAxis` on the index lists. */
  method CanMergeSlicesAlongAxis(d: nat, starts: seq<int>, others: seq<int>, limits: seq<int>, otherLimits: seq<int>,
                                 strides: seq<int>, otherStrides: seq<int>) returns (canMerge: bool)
    requires |starts| == |others| == |limits| == |otherLimits| == |strides| == |otherStrides|
    ensures canMerge <==> Adjacent(d, starts, others, limits, otherLimits, strides, otherStrides)
  {
    canMerge := true;
    for k := 0 to |starts|
      invariant canMerge <==> forall l | 0 <= l < k ::
        strides[l] == otherStrides[l]
        && if l == d then limits[l] == others[l] else starts[l] == others[l] && limits[l] == otherLimits[l]
    {
      if k == d {
        canMerge := canMerge && limits[k] == others[k] && strides[k] == otherStrides[k];
      } else {
        canMerge := canMerge && starts[k] == others[k] && limits[k] == otherLimits[k] && strides[k] == otherStrides[k];
      }
    }
  }

  function Merged(s: Operand, limits: seq<int>): Operand
    requires s.Slice?
  {
    s.(limits := limits)
  }

  /** The first slice ends right before a step of its stride. */
  predicate WholeSteps(s: Operand, d: nat)
    requires s.Slice? && Valid(s) && d < |s.starts|
  {
    (s.limits[d] - s.starts[d]) % s.strides[d] == 0
  }

  lemma ExtentWhole(a: int, b: int, c: int, s: int)
    requires s > 0 && (b - a) % s == 0
    ensures Extent(a, c, s) == Extent(a, b, s) + Extent(b, c, s) && s * Extent(a, b, s) == b - a
  {
    var q := (b - a) / s;
    assert b - a == s * q;
    QuotientPlus(0, q, s);
    QuotientPlus(c - b, q, s);
    assert c - a + s - 1 == (c - b + s - 1) + s * q;
  }

  lemma QuotientPlus(x: int, q: int, s: int)
    requires s > 0
    ensures (x + s - 1 + s * q) / s == (x + s - 1) / s + q
  {
    var y := x + s - 1;
    var e, r := y / s, y % s;
    assert y + s * q == s * (e + q) + r;
    Divides(y + s * q, e + q, r, s);
  }

  ghost predicate Mergeable(s: Operand, t: Operand, d: nat) {
    && s.Slice? && t.Slice? && Valid(s) && Valid(t) && s.src == t.src && d < |s.starts|
    && Adjacent(d, s.starts, t.starts, s.limits, t.limits, s.strides, t.strides)
  }

  lemma MergedValid(s: Operand, t: Operand, d: nat, rest: seq<int>)
    requires Mergeable(s, t, d) && Joinable([s], d, rest)
    ensures Valid(Merged(s, t.limits)) && Joinable([Merged(s, t.limits)], d, rest)
  {
    var m := Merged(s, t.limits);
    assert Valid([s][0]);
    forall k | 0 <= k < |m.starts| && k != d ensures Shape(m)[k] == Shape(s)[k] { }
    assert Shape(m)[d := 0] == Shape(s)[d := 0];
  }

  /** Where the first slice ends on a whole step, the merged slice is both slices. */
  lemma MergeKeeps(s: Operand, t: Operand, d: nat, rest: seq<int>)
    requires Mergeable(s, t, d) && WholeSteps(s, d) && Joinable([s], d, rest) && Joinable([t], d, rest)
    ensures SameTensor([Merged(s, t.limits)], [s, t], d, rest)
  {
    hide Joinable, Total, Concatenated, Shape, Valid;
    var m := Merged(s, t.limits);
    MergedValid(s, t, d, rest);
    Bounds([s], d, rest);
    MergedExtents(s, t, d);
    assert [s, t] == [s] + [t];
    var z := seq(|rest|, _ => 0);
    ConcatSplit([s], [t], d, rest, z);
    OneOperand(m, d, rest, z);
    OneOperand(s, d, rest, z);
    OneOperand(t, d, rest, z);
    forall idx: Index | |idx| == |rest| && InBounds(idx, rest[d := Total([m], d, rest)])
      ensures Concatenated([m], d, rest, idx) == Concatenated([s, t], d, rest, idx)
    {
      ConcatSplit([s], [t], d, rest, idx);
      OneOperand(m, d, rest, idx);
      OneOperand(s, d, rest, idx);
      var idx' := idx[d := idx[d] - Shape(s)[d]];
      OneOperand(t, d, rest, idx');
      MergedElements(s, t, d, idx);
    }
  }

  lemma MergedExtents(s: Operand, t: Operand, d: nat)
    requires Mergeable(s, t, d) && WholeSteps(s, d)
    ensures |Shape(s)| == |Shape(t)| == |Shape(Merged(s, t.limits))| == |s.starts|
    ensures Shape(Merged(s, t.limits))[d] == Shape(s)[d] + Shape(t)[d]
    ensures s.strides[d] * Shape(s)[d] == s.limits[d] - s.starts[d]
  {
    ExtentWhole(s.starts[d], s.limits[d], t.limits[d], s.strides[d]);
  }

  lemma MergedElements(s: Operand, t: Operand, d: nat, idx: Index)
    requires Mergeable(s, t, d) && WholeSteps(s, d) && |idx| == |s.starts| && Valid(Merged(s, t.limits))
    ensures |Shape(s)| == |idx| == |Shape(t)| == |Shape(Merged(s, t.limits))|
    ensures Element(Merged(s, t.limits), idx) == Element(s, idx)
    ensures Element(Merged(s, t.limits), idx) == Element(t, idx[d := idx[d] - Shape(s)[d]])
  {
    hide Element, Shape, Source, Extent, Valid;
    MergedExtents(s, t, d);
    MergeLengths(s, t, d);
    SliceElement(Merged(s, t.limits), idx);
    SliceElement(s, idx);
    var idx' := idx[d := idx[d] - Shape(s)[d]];
    SliceElement(t, idx');
    StepBack(s.strides[d], idx[d], Shape(s)[d]);
    SourceShifted(s, t, d, idx, idx');
  }

  lemma StepBack(s: int, j: int, n: int)
    ensures s * (j - n) == s * j - s * n
  {
  }

  lemma SourceShifted(s: Operand, t: Operand, d: nat, idx: Index, idx': Index)
    requires Mergeable(s, t, d) && |idx| == |idx'| == |s.starts|
    requires forall k | 0 <= k < |idx| && k != d :: idx'[k] == idx[k]
    requires t.starts[d] + s.strides[d] * idx'[d] == s.starts[d] + s.strides[d] * idx[d]
    ensures |t.starts| == |t.strides| == |idx| == |s.strides|
    ensures Source(s.starts, s.strides, idx) == Source(t.starts, t.strides, idx')
  {
    assert |t.starts| == |t.strides| == |idx| == |s.strides|;
    forall k | 0 <= k < |idx|
      ensures s.starts[k] + s.strides[k] * idx[k] == t.starts[k] + t.strides[k] * idx'[k]
    {
    }
  }

  /** The dimensions that are not concatenated are not empty. */
  predicate CrossSection(rest: seq<int>, d: nat) {
    forall k | 0 <= k < |rest| && k != d :: rest[k] > 0
  }

  /** Without whole steps a non-empty second slice is misplaced: the exact condition
      for slices of a leaf. */
  lemma MergeExact(s: Operand, t: Operand, d: nat, rest: seq<int>)
    requires Mergeable(s, t, d) && s.src.Leaf? && Joinable([s], d, rest) && Joinable([t], d, rest)
    requires CrossSection(rest, d)
    ensures SameTensor([Merged(s, t.limits)], [s, t], d, rest)
       <==> WholeSteps(s, d) || t.starts[d] == t.limits[d]
  {
    hide Total, Concatenated, Shape, Valid;
    MergedValid(s, t, d, rest);
    Bounds([s], d, rest);
    var m := Merged(s, t.limits);
    assert [s, t] == [s] + [t];
    var z := seq(|rest|, _ => 0);
    ConcatSplit([s], [t], d, rest, z);
    OneOperand(m, d, rest, z);
    OneOperand(s, d, rest, z);
    OneOperand(t, d, rest, z);
    MergeLengths(s, t, d);
    if WholeSteps(s, d) {
      MergeKeeps(s, t, d, rest);
    } else if t.starts[d] == t.limits[d] {
      assert m == s;
      EmptySecond(s, t, d, rest);
    } else if SameTensor([m], [s, t], d, rest) {
      var idx := z[d := Shape(s)[d]];
      ConcatSplit([s], [t], d, rest, idx);
      OneOperand(m, d, rest, idx);
      OneOperand(t, d, rest, idx[d := idx[d] - Shape(s)[d]]);
      assert Concatenated([m], d, rest, idx) == Concatenated([s, t], d, rest, idx);
      assert idx[d := idx[d] - Shape(s)[d]] == z;
      LeafElement(m, idx, d);
      LeafElement(t, z, d);
      assert s.strides[d] * Shape(s)[d] == s.limits[d] - s.starts[d];
      StepRemainder(s.limits[d] - s.starts[d], Shape(s)[d], s.strides[d]);
    }
  }

  lemma StepRemainder(x: int, e: int, s: int)
    requires s > 0 && x == s * e
    ensures x % s == 0
  {
    var r := x % s;
    assert x == s * (x / s) + r;
    Divides(x, e, 0, s);
  }

  lemma MergeLengths(s: Operand, t: Operand, d: nat)
    requires Mergeable(s, t, d)
    ensures |s.starts| == |t.starts| == |s.limits| == |t.limits| == |s.strides| == |t.strides|
    ensures |Shape(s)| == |Shape(t)| == |s.starts| && 0 <= Shape(s)[d] && s.strides[d] > 0
    ensures t.starts[d] == t.limits[d] ==> Shape(t)[d] == 0
    ensures t.starts[d] != t.limits[d] ==> Shape(t)[d] > 0
    ensures t.starts[d] == t.limits[d] ==> Merged(s, t.limits) == s
  {
    ExtentSign(t.starts[d], t.limits[d], t.strides[d]);
    ExtentNonNegative(s.starts[d], s.limits[d], s.strides[d]);
    assert t.starts[d] == t.limits[d] ==> t.limits == s.limits;
  }

  lemma ExtentSign(start: int, limit: int, stride: int)
    requires start <= limit && stride > 0
    ensures if start == limit then Extent(start, limit, stride) == 0 else Extent(start, limit, stride) > 0
  {
    Divides(stride - 1, 0, stride - 1, stride);
  }

  lemma EmptySecond(s: Operand, t: Operand, d: nat, rest: seq<int>)
    requires Valid(s) && Valid(t) && Joinable([s], d, rest) && Joinable([t], d, rest)
    requires d < |Shape(t)| && Shape(t)[d] == 0
    ensures SameTensor([s], [s, t], d, rest)
  {
    hide Total, Concatenated, Shape, Valid;
    assert [s, t] == [s] + [t];
    Bounds([s], d, rest);
    var z := seq(|rest|, _ => 0);
    ConcatSplit([s], [t], d, rest, z);
    OneOperand(s, d, rest, z);
    OneOperand(t, d, rest, z);
    forall idx: Index | |idx| == |rest| && InBounds(idx, rest[d := Total([s], d, rest)])
      ensures Concatenated([s], d, rest, idx) == Concatenated([s, t], d, rest, idx)
    {
      ConcatSplit([s], [t], d, rest, idx);
    }
  }

  lemma LeafElement(s: Operand, idx: Index, d: nat)
    requires s.Slice? && Valid(s) && s.src.Leaf? && |idx| == |s.starts| && d < |idx|
    ensures |Shape(s)| == |idx| == |s.strides| && |Element(s, idx).at| == |idx|
    ensures Element(s, idx).at[d] == s.starts[d] + s.strides[d] * idx[d]
  {
    SliceElement(s, idx);
  }

  // ---------------------------------------------------------------- the test misses nothing

  /** A slice without strides. */
  ghost predicate UnitSlice(e: Operand) {
    e.Slice? && Valid(e) && forall k | 0 <= k < |e.strides| :: e.strides[k] == 1
  }

  /** Two slices without strides of a leaf, not empty: they pass the test exactly if some
      such slice is their concatenation. */
  lemma UnitMergeComplete(s: Operand, t: Operand, d: nat, rest: seq<int>)
    requires UnitSlice(s) && UnitSlice(t) && s.src == t.src && s.src.Leaf?
    requires Joinable([s], d, rest) && Joinable([t], d, rest) && CrossSection(rest, d)
    requires d < |Shape(s)| && d < |Shape(t)| && Shape(s)[d] > 0 && Shape(t)[d] > 0
    ensures Mergeable(s, t, d)
       <==> exists m :: UnitSlice(m) && m.src == s.src && SameTensor([m], [s, t], d, rest)
  {
    Bounds([s], d, rest);
    if Mergeable(s, t, d) {
      var m := Merged(s, t.limits);
      UnitWhole(s, d);
      MergeKeeps(s, t, d, rest);
      MergedValid(s, t, d, rest);
      assert UnitSlice(m);
    }
    if m :| UnitSlice(m) && m.src == s.src && SameTensor([m], [s, t], d, rest) {
      UnitMerged(s, t, m, d, rest);
    }
  }

  lemma UnitWhole(s: Operand, d: nat)
    requires UnitSlice(s) && d < |s.starts|
    ensures d < |s.strides| && WholeSteps(s, d)
  {
  }

  lemma UnitMerged(s: Operand, t: Operand, m: Operand, d: nat, rest: seq<int>)
    requires UnitSlice(s) && UnitSlice(t) && UnitSlice(m) && s.src == t.src == m.src && s.src.Leaf?
    requires Joinable([s], d, rest) && Joinable([t], d, rest) && CrossSection(rest, d)
    requires d < |Shape(s)| && d < |Shape(t)| && Shape(s)[d] > 0 && Shape(t)[d] > 0
    requires SameTensor([m], [s, t], d, rest)
    ensures Mergeable(s, t, d)
  {
    var z: Index := seq(|rest|, _ => 0);
    SameSides([m], [s, t], d, rest);
    UnitReads(s, t, m, d, rest, z);
    UnitReads(s, t, m, d, rest, z[d := Shape(s)[d]]);
    OffAxis(s, d, rest);
    OffAxis(t, d, rest);
    UnitShape(s);
    UnitShape(t);
    hide SameTensor, Joinable, Total, Concatenated, Element, Shape;
    UnitCell(m, z);
    UnitCell(m, z[d := Shape(s)[d]]);
    UnitCell(s, z);
    UnitCell(t, z);
    assert z[d := Shape(s)[d]][d := 0] == z;
    UnitAdjacent(s, t, m.starts, d, z);
  }

  lemma UnitShape(e: Operand)
    requires UnitSlice(e)
    ensures |Shape(e)| == |e.starts| == |e.limits| == |e.strides|
    ensures forall k | 0 <= k < |e.starts| :: Shape(e)[k] == e.limits[k] - e.starts[k]
  {
  }

  function Plus(a: seq<int>, b: seq<int>): (r: seq<int>)
    requires |a| == |b|
    ensures |r| == |a|
  {
    seq(|a|, k requires 0 <= k < |a| => a[k] + b[k])
  }

  lemma UnitCell(e: Operand, idx: Index)
    requires UnitSlice(e) && e.src.Leaf? && |idx| == |e.starts|
    ensures |Shape(e)| == |idx| && Element(e, idx) == Cell(e.src.id, Plus(e.starts, idx))
  {
    SliceElement(e, idx);
    assert Source(e.starts, e.strides, idx) == Plus(e.starts, idx);
  }

  lemma UnitReads(s: Operand, t: Operand, m: Operand, d: nat, rest: seq<int>, idx: Index)
    requires SameTensor([m], [s, t], d, rest) && Joinable([s], d, rest) && Joinable([t], d, rest)
    requires CrossSection(rest, d) && d < |rest| == |Shape(s)| == |Shape(t)| && Shape(s)[d] > 0 && Shape(t)[d] > 0
    requires |idx| == |rest| && (idx[d] == 0 || idx[d] == Shape(s)[d]) && idx[d := 0] == seq(|rest|, _ => 0)
    ensures |Shape(m)| == |rest| && Valid(m) && Valid(s) && Valid(t)
    ensures Element(m, idx) == if idx[d] == 0 then Element(s, idx) else Element(t, idx[d := 0])
  {
    hide Total, Concatenated, Shape, Valid, Element;
    SameSides([m], [s, t], d, rest);
    assert [s, t] == [s] + [t];
    ConcatSplit([s], [t], d, rest, idx);
    OneOperand(m, d, rest, idx);
    OneOperand(s, d, rest, idx);
    OneOperand(t, d, rest, idx[d := 0]);
    forall k | 0 <= k < |rest| && k != d ensures idx[k] == 0 { assert idx[d := 0][k] == 0; }
    assert InBounds(idx, rest[d := Total([m], d, rest)]);
    assert Concatenated([m], d, rest, idx) == Concatenated([s, t], d, rest, idx);
  }

  lemma UnitAdjacent(s: Operand, t: Operand, starts: seq<int>, d: nat, z: Index)
    requires UnitSlice(s) && UnitSlice(t) && s.src == t.src && d < |s.starts| == |t.starts| == |starts| == |z|
    requires forall k | 0 <= k < |z| :: z[k] == 0
    requires |Shape(s)| == |Shape(t)| == |s.starts|
    requires |s.limits| == |t.limits| == |s.starts| == |s.strides| == |t.strides|
    requires forall k | 0 <= k < |s.starts| :: Shape(s)[k] == s.limits[k] - s.starts[k] && Shape(t)[k] == t.limits[k] - t.starts[k]
    requires forall k | 0 <= k < |s.starts| && k != d :: Shape(s)[k] == Shape(t)[k]
    requires Plus(starts, z) == Plus(s.starts, z)
    requires Plus(starts, z[d := Shape(s)[d]]) == Plus(t.starts, z)
    ensures Mergeable(s, t, d)
  {
    hide Shape, Extent;
    forall k | 0 <= k < |s.starts|
      ensures starts[k] == s.starts[k] && t.starts[k] == if k == d then s.limits[d] else s.starts[k]
    {
      assert Plus(starts, z)[k] == Plus(s.starts, z)[k];
      assert Plus(starts, z[d := Shape(s)[d]])[k] == Plus(t.starts, z)[k];
    }
  }

  // ---------------------------------------------------------------- wraps

  function Ones(n: nat): (r: seq<int>)
    ensures |r| == n
  {
    seq(n, _ => 1)
  }

  function Zeros(n: nat): (r: seq<int>)
    ensures |r| == n
  {
    seq(n, _ => 0)
  }

  /** `lowerWrap`: the operands of the concatenation that a wrap stands for. */
  function LowerWrap(wr: Operand): (r: seq<Operand>)
    requires wr.Wrap? && Valid(wr)
    ensures |r| >= 1
  {
    var s, k := Shape(wr.src), wr.along;
    (if wr.lhs != 0 then [Slice(wr.src, Zeros(|s|)[k := s[k] - wr.lhs], s, Ones(|s|))] else [])
    + [wr.src]
    + (if wr.rhs != 0 then [Slice(wr.src, Zeros(|s|), s[k := wr.rhs], Ones(|s|))] else [])
  }

  /** The slice from start to limit along k, with stride 1 and all of the other dimensions. */
  function Part(src: Operand, k: nat, start: int, limit: int): Operand
    requires k < |Shape(src)|
  {
    var s := Shape(src);
    Slice(src, Zeros(|s|)[k := start], s[k := limit], Ones(|s|))
  }

  lemma PartShape(src: Operand, k: nat, start: int, limit: int, rest: seq<int>)
    requires Valid(src) && k < |Shape(src)| && 0 <= start <= limit <= Shape(src)[k] && Joinable([src], k, rest)
    ensures var p := Part(src, k, start, limit);
      && Valid(p) && Joinable([p], k, rest) && |p.starts| == |Shape(src)| == |Shape(p)| && Shape(p)[k] == limit - start
  {
    var s, p := Shape(src), Part(src, k, start, limit);
    ShapeNonNegative(src);
    assert Valid([src][0]);
    assert Valid(p);
    forall l | 0 <= l < |s| ensures Shape(p)[l] == s[k := limit - start][l] {
      assert Extent(p.starts[l], p.limits[l], 1) == p.limits[l] - p.starts[l];
    }
    assert Shape(p)[k := 0] == s[k := 0];
  }

  lemma PartElement(src: Operand, k: nat, start: int, limit: int, idx: Index)
    requires Valid(src) && k < |Shape(src)| == |idx| && Valid(Part(src, k, start, limit))
    ensures |Shape(Part(src, k, start, limit))| == |idx|
    ensures Element(Part(src, k, start, limit), idx) == Element(src, idx[k := start + idx[k]])
  {
    var p := Part(src, k, start, limit);
    SliceElement(p, idx);
    assert Source(p.starts, p.strides, idx) == idx[k := start + idx[k]];
  }

  function LeftPart(wr: Operand): seq<Operand>
    requires wr.Wrap? && Valid(wr)
  {
    var n := Shape(wr.src)[wr.along];
    if wr.lhs != 0 then [Part(wr.src, wr.along, n - wr.lhs, n)] else []
  }

  function RightPart(wr: Operand): seq<Operand>
    requires wr.Wrap? && Valid(wr)
  {
    if wr.rhs != 0 then [Part(wr.src, wr.along, 0, wr.rhs)] else []
  }

  lemma WrapShape(wr: Operand, rest: seq<int>)
    requires wr.Wrap? && Valid(wr) && Joinable([wr], wr.along, rest)
    ensures var s, k := Shape(wr.src), wr.along;
      Joinable([wr.src], k, rest) && |s| == |rest| && k < |rest| && Shape(wr)[k] == s[k] + wr.lhs + wr.rhs
  {
    assert Valid([wr][0]);
    assert Shape(wr)[wr.along := 0] == Shape(wr.src)[wr.along := 0];
  }

  lemma PartAlone(src: Operand, k: nat, start: int, limit: int, rest: seq<int>, idx: Index)
    requires Valid(src) && Joinable([src], k, rest) && |idx| == |rest| == |Shape(src)| && k < |rest|
    requires 0 <= start <= limit <= Shape(src)[k]
    ensures var p := [Part(src, k, start, limit)];
      Joinable(p, k, rest) && Total(p, k, rest) == limit - start
      && (idx[k] < limit - start ==> Concatenated(p, k, rest, idx) == Element(src, idx[k := start + idx[k]]))
  {
    hide Element, Concatenated, Part, Shape, Total, Valid, Joinable;
    PartShape(src, k, start, limit, rest);
    PartElement(src, k, start, limit, idx);
    OneOperand(Part(src, k, start, limit), k, rest, idx);
  }

  lemma NoOperands(k: nat, rest: seq<int>)
    requires k < |rest|
    ensures Joinable([], k, rest) && Total([], k, rest) == 0
  {
  }

  lemma SourceShape(wr: Operand, rest: seq<int>)
    requires wr.Wrap? && Valid(wr) && Joinable([wr.src], wr.along, rest)
    ensures Valid(wr.src) && wr.along < |rest| == |Shape(wr.src)|
    ensures 0 <= wr.lhs <= Shape(wr.src)[wr.along] && 0 <= wr.rhs <= Shape(wr.src)[wr.along]
  {
    assert Valid([wr.src][0]);
  }

  lemma LeftElements(wr: Operand, rest: seq<int>, idx: Index)
    requires wr.Wrap? && Valid(wr) && Joinable([wr.src], wr.along, rest) && |idx| == |rest|
    ensures Joinable(LeftPart(wr), wr.along, rest) && |Shape(wr.src)| == |rest| && wr.along < |rest|
    ensures Total(LeftPart(wr), wr.along, rest) == wr.lhs
    ensures 0 <= idx[wr.along] < wr.lhs ==>
      Concatenated(LeftPart(wr), wr.along, rest, idx)
      == Element(wr.src, idx[wr.along := Shape(wr.src)[wr.along] - wr.lhs + idx[wr.along]])
  {
    hide Element, Concatenated, Part, Shape, Total, Valid, Joinable;
    SourceShape(wr, rest);
    NoOperands(wr.along, rest);
    if wr.lhs != 0 {
      var n := Shape(wr.src)[wr.along];
      PartAlone(wr.src, wr.along, n - wr.lhs, n, rest, idx);
    }
  }

  lemma RightElements(wr: Operand, rest: seq<int>, idx: Index)
    requires wr.Wrap? && Valid(wr) && Joinable([wr.src], wr.along, rest) && |idx| == |rest|
    ensures Joinable(RightPart(wr), wr.along, rest) && |Shape(wr.src)| == |rest| && wr.along < |rest|
    ensures Total(RightPart(wr), wr.along, rest) == wr.rhs
    ensures 0 <= idx[wr.along] < wr.rhs ==>
      Concatenated(RightPart(wr), wr.along, rest, idx) == Element(wr.src, idx)
  {
    hide Element, Concatenated, Part, Shape, Total, Valid, Joinable;
    SourceShape(wr, rest);
    NoOperands(wr.along, rest);
    assert idx[wr.along := 0 + idx[wr.along]] == idx;
    if wr.rhs != 0 {
      PartAlone(wr.src, wr.along, 0, wr.rhs, rest, idx);
    }
  }

  lemma WrapElement(wr: Operand, idx: Index)
    requires wr.Wrap? && Valid(wr) && |idx| == |Shape(wr)|
    ensures |idx| == |Shape(wr.src)| && wr.along < |idx|
    ensures Element(wr, idx) == Element(wr.src, idx[wr.along := Unwrapped(idx[wr.along], Shape(wr.src)[wr.along], wr.lhs)])
  {
  }

  /** A wrap is the concatenation it is lowered to. */
  lemma LowerWrapKeeps(wr: Operand, rest: seq<int>)
    requires wr.Wrap? && Valid(wr) && Joinable([wr], wr.along, rest)
    ensures SameTensor(LowerWrap(wr), [wr], wr.along, rest)
  {
    hide Total, Concatenated, Shape, Valid, Element, LeftPart, RightPart;
    var k, l, r, x := wr.along, LeftPart(wr), RightPart(wr), [wr.src];
    WrapShape(wr, rest);
    WrapParts(wr);
    var z, n := Zeros(|rest|), Shape(wr.src)[k];
    LeftElements(wr, rest, z);
    RightElements(wr, rest, z);
    OneOperand(wr.src, k, rest, z);
    OneOperand(wr, k, rest, z);
    ConcatSplit(l, x, k, rest, z);
    ConcatSplit(l + x, r, k, rest, z);
    forall idx: Index | |idx| == |rest| && InBounds(idx, rest[k := Total([wr], k, rest)])
      ensures Concatenated((l + x) + r, k, rest, idx) == Concatenated([wr], k, rest, idx)
    {
      ConcatSplit(l, x, k, rest, idx);
      ConcatSplit(l + x, r, k, rest, idx);
      LeftElements(wr, rest, idx);
      var i1 := idx[k := idx[k] - wr.lhs];
      OneOperand(wr.src, k, rest, i1);
      var i2 := idx[k := idx[k] - (wr.lhs + n)];
      RightElements(wr, rest, i2);
      OneOperand(wr, k, rest, idx);
      WrapElement(wr, idx);
      assert idx[k := idx[k] - wr.lhs - n] == i2;
    }
  }

  lemma WrapParts(wr: Operand)
    requires wr.Wrap? && Valid(wr)
    ensures LowerWrap(wr) == (LeftPart(wr) + [wr.src]) + RightPart(wr)
    ensures wr.lhs != 0 ==> |LeftPart(wr)| == 1
  {
    var s, k := Shape(wr.src), wr.along;
    assert s[k := s[k]] == s && Zeros(|s|)[k := 0] == Zeros(|s|);
  }

  // ---------------------------------------------------------------- merging a slice and a wrap

  /** Where the wrap has to start for the slice before it: at its left part if the
      slice below has stride 1 along d, and at that slice otherwise. */
  function WrapStarts(wr: Operand, d: nat): (r: seq<int>)
    requires wr.Wrap? && wr.src.Slice? && |wr.src.starts| == |wr.src.limits| == |wr.src.strides| && d < |wr.src.starts|
    ensures |r| == |wr.src.starts|
  {
    var x := wr.src;
    if x.strides[d] == 1 then x.starts[d := x.limits[d] - wr.lhs] else x.starts
  }

  /** The test for a wrap of a slice of the same source. */
  ghost predicate Continues(s: Operand, wr: Operand, d: nat) {
    && s.Slice? && Valid(s) && d < |s.starts|
    && wr.Wrap? && Valid(wr) && wr.src.Slice? && Valid(wr.src) && wr.src.src == s.src && wr.lhs != 0
    && Adjacent(d, s.starts, WrapStarts(wr, d), s.limits, wr.src.limits, s.strides, wr.src.strides)
  }

  lemma ContinuesLengths(s: Operand, wr: Operand, d: nat)
    requires Continues(s, wr, d)
    ensures s.Slice? && wr.Wrap? && wr.src.Slice? && Valid(s) && Valid(wr) && Valid(wr.src) && 0 < wr.lhs
    ensures wr.src.src == s.src
    ensures d < |s.starts| == |s.limits| == |s.strides| == |Shape(s)|
    ensures |wr.src.starts| == |wr.src.limits| == |wr.src.strides| == |Shape(wr.src)| == |s.starts|
  {
  }

  /** Operands of one concatenation pass the test only if the wrap goes along d: it
      makes its own dimension longer, where the test asks for the same extent. */
  lemma WrapsAlong(s: Operand, wr: Operand, d: nat, rest: seq<int>)
    requires Continues(s, wr, d) && Joinable([s], d, rest) && Joinable([wr], d, rest)
    ensures wr.along == d
  {
    hide Shape, Continues, Joinable;
    ContinuesLengths(s, wr, d);
    SameOffAxis(s, wr, d);
    OffAxis(s, d, rest);
    OffAxis(wr, d, rest);
    WrapLonger(wr);
  }

  lemma SameOffAxis(s: Operand, wr: Operand, d: nat)
    requires Continues(s, wr, d)
    ensures |Shape(s)| == |Shape(wr.src)| && forall k | 0 <= k < |Shape(s)| && k != d :: Shape(s)[k] == Shape(wr.src)[k]
  {
    hide Extent;
    ContinuesLengths(s, wr, d);
  }

  lemma OffAxis(e: Operand, d: nat, rest: seq<int>)
    requires Joinable([e], d, rest)
    ensures d < |Shape(e)| == |rest| && forall k | 0 <= k < |rest| && k != d :: Shape(e)[k] == rest[k]
  {
    hide Shape;
    assert Valid([e][0]);
    forall k | 0 <= k < |rest| && k != d ensures Shape(e)[k] == rest[k] {
      assert Shape(e)[d := 0][k] == rest[d := 0][k];
    }
  }

  lemma WrapLonger(wr: Operand)
    requires wr.Wrap? && Valid(wr)
    ensures |Shape(wr)| == |Shape(wr.src)| && wr.along < |Shape(wr)|
    ensures Shape(wr)[wr.along] == Shape(wr.src)[wr.along] + wr.lhs + wr.rhs && 0 <= wr.rhs
  {
  }

  /** The left part of the wrap is where the test takes it to be. */
  predicate WrapSound(wr: Operand, d: nat)
    requires wr.Wrap? && wr.src.Slice? && d < |wr.src.strides| && d < |Shape(wr.src)|
  {
    wr.src.strides[d] == 1 || wr.lhs == Shape(wr.src)[d]
  }

  /** The left part of the wrap as a slice of the common source. */
  function Tail(wr: Operand, d: nat): Operand
    requires wr.Wrap? && wr.src.Slice? && |wr.src.starts| == |wr.src.limits| == |wr.src.strides| && d < |wr.src.starts|
  {
    wr.src.(starts := WrapStarts(wr, d))
  }

  lemma TailValid(wr: Operand, d: nat, rest: seq<int>)
    requires wr.Wrap? && Valid(wr) && wr.src.Slice? && wr.along == d && d < |wr.src.starts| && Valid(wr.src)
    requires Joinable([wr.src], d, rest)
    ensures |wr.src.starts| == |wr.src.limits| == |wr.src.strides| == |Shape(wr.src)|
    ensures WrapSound(wr, d) ==>
      Valid(Tail(wr, d)) && Joinable([Tail(wr, d)], d, rest) && Shape(Tail(wr, d))[d] == wr.lhs
    ensures wr.src.strides[d] == 1 ==> Shape(wr.src)[d] == wr.src.limits[d] - wr.src.starts[d]
  {
    var x, t := wr.src, Tail(wr, d);
    if x.strides[d] == 1 {
      assert Shape(x)[d] == Extent(x.starts[d], x.limits[d], 1) == x.limits[d] - x.starts[d];
      assert Valid([x][0]) && Valid(t);
      assert Shape(t)[d] == Extent(t.starts[d], t.limits[d], 1) == wr.lhs;
      assert Shape(t)[d := 0] == Shape(x)[d := 0];
    } else {
      assert t == x;
    }
  }

  /** The left part of the wrap is that slice. */
  lemma LeftIsTail(wr: Operand, d: nat, rest: seq<int>)
    requires wr.Wrap? && Valid(wr) && wr.src.Slice? && wr.along == d && d < |wr.src.starts| && wr.lhs != 0
    requires |wr.src.limits| == |wr.src.strides| == |wr.src.starts| == |Shape(wr.src)| && Valid(wr.src)
    requires WrapSound(wr, d) && Joinable([wr.src], d, rest)
    ensures SameTensor([Tail(wr, d)], LeftPart(wr), d, rest)
  {
    hide Total, Concatenated, Shape, Valid, Element, LeftPart;
    var x, t, z := wr.src, Tail(wr, d), Zeros(|rest|);
    TailValid(wr, d, rest);
    LeftElements(wr, rest, z);
    OneOperand(t, d, rest, z);
    forall idx: Index | |idx| == |rest| && InBounds(idx, rest[d := Total([t], d, rest)])
      ensures Concatenated([t], d, rest, idx) == Concatenated(LeftPart(wr), d, rest, idx)
    {
      LeftElements(wr, rest, idx);
      OneOperand(t, d, rest, idx);
      TailElement(wr, d, idx);
    }
  }

  lemma TailElement(wr: Operand, d: nat, idx: Index)
    requires wr.Wrap? && Valid(wr) && wr.src.Slice? && wr.along == d < |wr.src.starts| == |idx|
    requires |wr.src.limits| == |wr.src.strides| == |wr.src.starts| && Valid(wr.src) && Valid(Tail(wr, d))
    requires |Shape(wr.src)| == |Shape(Tail(wr, d))| == |idx| && WrapSound(wr, d)
    requires wr.src.strides[d] == 1 ==> Shape(wr.src)[d] == wr.src.limits[d] - wr.src.starts[d]
    ensures Element(Tail(wr, d), idx) == Element(wr.src, idx[d := Shape(wr.src)[d] - wr.lhs + idx[d]])
  {
    hide Element;
    var x, t, j := wr.src, Tail(wr, d), idx[d := Shape(wr.src)[d] - wr.lhs + idx[d]];
    if x.strides[d] == 1 {
      SliceElement(x, j);
      SliceElement(t, idx);
      assert Source(x.starts, x.strides, j) == Source(t.starts, t.strides, idx);
    } else {
      assert t == x && j == idx;
    }
  }

  /** One more slice joins the merged ones. */
  lemma JoinSlice(s: Operand, t: Operand, done: seq<Operand>, d: nat, rest: seq<int>)
    requires Mergeable(s, t, d) && WholeSteps(s, d) && Joinable([t], d, rest)
    requires SameTensor([s], done, d, rest)
    ensures SameTensor([Merged(s, t.limits)], done + [t], d, rest)
  {
    hide Total, Concatenated, Shape, Valid, Joinable;
    SameSides([s], done, d, rest);
    MergeKeeps(s, t, d, rest);
    SameRefl([t], d, rest);
    SameConcat([s], done, [t], [t], d, rest);
    assert [s] + [t] == [s, t];
    SameTrans([Merged(s, t.limits)], [s, t], done + [t], d, rest);
  }

  lemma TailMerges(s: Operand, wr: Operand, d: nat)
    requires Continues(s, wr, d) && Valid(Tail(wr, d))
    ensures Mergeable(s, Tail(wr, d), d)
  {
  }

  /** A wrap joins the merged slices: they take in its left part. */
  lemma JoinWrap(s: Operand, wr: Operand, done: seq<Operand>, d: nat, rest: seq<int>)
    requires Continues(s, wr, d) && WholeSteps(s, d) && Joinable([wr], d, rest)
    requires d < |wr.src.strides| && d < |Shape(wr.src)| && WrapSound(wr, d)
    requires SameTensor([s], done, d, rest)
    ensures Valid(wr) && SameTensor([Merged(s, wr.src.limits)] + LowerWrap(wr)[1..], done + [wr], d, rest)
  {
    hide Total, Concatenated, Shape, Valid, LeftPart, RightPart, LowerWrap, Joinable, Continues, WholeSteps, SameTensor, WrapSound, Mergeable;
    ContinuesLengths(s, wr, d);
    SameSides([s], done, d, rest);
    WrapsAlong(s, wr, d, rest);
    var t, l, r := Tail(wr, d), LeftPart(wr), [wr.src] + RightPart(wr);
    WrapShape(wr, rest);
    TailValid(wr, d, rest);
    TailMerges(s, wr, d);
    JoinSlice(s, t, done, d, rest);
    LeftIsTail(wr, d, rest);
    WrapParts(wr);
    assert LowerWrap(wr) == l + r;
    assert LowerWrap(wr)[1..] == r;
    LowerWrapKeeps(wr, rest);
    RightJoinable(wr, d, rest);
    Compose(Merged(s, t.limits), t, l, r, wr, done, d, rest);
  }

  lemma Compose(m: Operand, t: Operand, l: seq<Operand>, r: seq<Operand>, wr: Operand, done: seq<Operand>,
                d: nat, rest: seq<int>)
    requires SameTensor([m], done + [t], d, rest) && SameTensor([t], l, d, rest) && SameTensor(l + r, [wr], d, rest)
    requires Joinable(r, d, rest) && Joinable(done, d, rest)
    ensures SameTensor([m] + r, done + [wr], d, rest)
  {
    hide SameTensor, Joinable;
    SameRefl(r, d, rest);
    SameConcat([t], l, r, r, d, rest);
    SameTrans([t] + r, l + r, [wr], d, rest);
    SameConcat([m], done + [t], r, r, d, rest);
    SameRefl(done, d, rest);
    SameConcat(done, done, [t] + r, [wr], d, rest);
    assert (done + [t]) + r == done + ([t] + r);
    SameTrans([m] + r, (done + [t]) + r, done + [wr], d, rest);
  }

  lemma RightJoinable(wr: Operand, d: nat, rest: seq<int>)
    requires wr.Wrap? && Valid(wr) && wr.along == d && Joinable([wr.src], d, rest)
    ensures Joinable([wr.src] + RightPart(wr), d, rest)
  {
    hide Shape, Valid, RightPart;
    Bounds([wr.src], d, rest);
    RightElements(wr, rest, Zeros(|rest|));
    JoinableConcat([wr.src], RightPart(wr), d, rest);
  }

  /** Merging the slice and the wrap keeps every element exactly when the slice ends
      on a whole step and the left part is where the test takes it to be. */
  lemma WrapExact(s: Operand, wr: Operand, d: nat, rest: seq<int>)
    requires Continues(s, wr, d) && s.src.Leaf? && Joinable([s], d, rest) && Joinable([wr], d, rest)
    requires CrossSection(rest, d) && d < |wr.src.strides| && d < |Shape(wr.src)|
    ensures Valid(wr)
    ensures SameTensor([Merged(s, wr.src.limits)] + LowerWrap(wr)[1..], [s] + [wr], d, rest)
       <==> WholeSteps(s, d) && WrapSound(wr, d)
  {
    hide Total, Concatenated, Shape, Valid, LowerWrap, Joinable, Continues;
    ContinuesLengths(s, wr, d);
    if WholeSteps(s, d) && WrapSound(wr, d) {
      SameRefl([s], d, rest);
      JoinWrap(s, wr, [s], d, rest);
    }
    if SameTensor([Merged(s, wr.src.limits)] + LowerWrap(wr)[1..], [s] + [wr], d, rest) {
      WrapMisplaced(s, wr, d, rest);
    }
  }

  lemma WrapMisplaced(s: Operand, wr: Operand, d: nat, rest: seq<int>)
    requires Continues(s, wr, d) && s.src.Leaf? && Joinable([s], d, rest) && Joinable([wr], d, rest)
    requires CrossSection(rest, d) && d < |wr.src.strides| && d < |Shape(wr.src)| && Valid(wr)
    requires SameTensor([Merged(s, wr.src.limits)] + LowerWrap(wr)[1..], [s] + [wr], d, rest)
    ensures WholeSteps(s, d) && WrapSound(wr, d)
  {
    hide Total, Concatenated, Shape, Valid, LeftPart, RightPart, LowerWrap, Joinable, Continues, Element, WholeSteps;
    ContinuesLengths(s, wr, d);
    WrapsAlong(s, wr, d, rest);
    WrapShape(wr, rest);
    WrapParts(wr);
    var m, x, l, r := Merged(s, wr.src.limits), wr.src, LeftPart(wr), [wr.src] + RightPart(wr);
    assert LowerWrap(wr)[1..] == r;
    var z := Zeros(|rest|);
    ContinuesMerged(s, wr, d, rest);
    RightJoinable(wr, d, rest);
    LeftElements(wr, rest, z);
    RightElements(wr, rest, z);
    OneOperand(m, d, rest, z);
    OneOperand(s, d, rest, z);
    OneOperand(wr, d, rest, z);
    OneOperand(x, d, rest, z);
    ConcatSplit([m], r, d, rest, z);
    ConcatSplit([s], [wr], d, rest, z);
    ConcatSplit([x], RightPart(wr), d, rest, z);
    assert Shape(m)[d] == Shape(s)[d] + wr.lhs;
    var idx, i1 := z[d := Shape(s)[d]], z;
    ConcatSplit([m], r, d, rest, idx);
    ConcatSplit([s], [wr], d, rest, idx);
    OneOperand(m, d, rest, idx);
    assert idx[d := idx[d] - Shape(s)[d]] == z;
    WrapElement(wr, z);
    LeafElement(m, idx, d);
    var j := z[d := Unwrapped(0, Shape(x)[d], wr.lhs)];
    LeafElement(x, j, d);
    assert Concatenated([m] + r, d, rest, idx) == Concatenated([s] + [wr], d, rest, idx);
    assert s.starts[d] + s.strides[d] * Shape(s)[d] == x.starts[d] + x.strides[d] * (Shape(x)[d] - wr.lhs);
    SamePlaces(s, wr, d);
  }

  /** If the merged slice goes on where the left part lies, the slice has whole steps
      and the left part is all of the slice below, or the stride is 1. */
  lemma SamePlaces(s: Operand, wr: Operand, d: nat)
    requires Continues(s, wr, d) && d < |Shape(s)| && d < |Shape(wr.src)|
    requires d < |wr.src.strides| && d < |wr.src.starts|
    requires s.starts[d] + s.strides[d] * Shape(s)[d]
          == wr.src.starts[d] + wr.src.strides[d] * (Shape(wr.src)[d] - wr.lhs)
    ensures WholeSteps(s, d) && WrapSound(wr, d)
  {
    var st, n, k := s.strides[d], Shape(s)[d], Shape(wr.src)[d] - wr.lhs;
    assert wr.src.strides[d] == st;
    if st != 1 {
      assert wr.src.starts[d] == s.limits[d];
      StepBack(st, n, k);
      StepRemainder(s.limits[d] - s.starts[d], n - k, st);
      ExtentWhole(s.starts[d], s.limits[d], s.limits[d], st);
      ExtentSign(s.limits[d], s.limits[d], st);
      SameFactor(st, n, n - k);
    } else {
      StepRemainder(s.limits[d] - s.starts[d], s.limits[d] - s.starts[d], 1);
    }
  }

  lemma SameFactor(s: int, a: int, b: int)
    requires s > 0 && s * a == s * b
    ensures a == b
  {
    StepBack(s, a, b);
    if a > b { Above(s, a - b); }
    if b > a { StepBack(s, b, a); Above(s, b - a); }
  }

  lemma ContinuesMerged(s: Operand, wr: Operand, d: nat, rest: seq<int>)
    requires Continues(s, wr, d) && Joinable([s], d, rest)
    ensures Valid(Merged(s, wr.src.limits)) && Joinable([Merged(s, wr.src.limits)], d, rest)
  {
    ContinuesLengths(s, wr, d);
    var m := Merged(s, wr.src.limits);
    assert Valid([s][0]);
    assert s.limits[d] <= wr.src.limits[d];
    forall k | 0 <= k < |m.starts| && k != d ensures Shape(m)[k] == Shape(s)[k] { }
    assert Shape(m)[d := 0] == Shape(s)[d := 0];
  }

  /** A strided wrap that is not sound: of six elements, the slice 0:2:2 and the wrap
      of 2:6:2 by one element at its left. Three elements stand where two are due. */
  lemma StridedWrap()
    ensures var leaf := Leaf(0, [6]);
      var s, wr := Slice(leaf, [0], [2], [2]), Wrap(Slice(leaf, [2], [6], [2]), 1, 0, 0);
      && Continues(s, wr, 0) && WholeSteps(s, 0) && Joinable([s], 0, [0]) && Joinable([wr], 0, [0])
      && Shape(Merged(s, wr.src.limits)) == [3] && Shape(s) == [1]
      && !SameTensor([Merged(s, wr.src.limits)] + LowerWrap(wr)[1..], [s] + [wr], 0, [0])
  {
    hide SameTensor, LowerWrap;
    var leaf := Leaf(0, [6]);
    var x := Slice(leaf, [2], [6], [2]);
    var s, wr := Slice(leaf, [0], [2], [2]), Wrap(x, 1, 0, 0);
    assert Shape(x) == [2] && Shape(s) == [1] && Valid(x) && Valid(s) && Valid(wr) && Shape(wr) == [3];
    assert Shape(s)[0 := 0] == [0][0 := 0] && Shape(wr)[0 := 0] == [0][0 := 0];
    WrapExact(s, wr, 0, [0]);
  }

  // ---------------------------------------------------------------- the pass over the operands

  /** The two neighbours pass the test. */
  ghost predicate Joins(s: Operand, t: Operand, d: nat) {
    s.Slice? && (Mergeable(s, t, d) || Continues(s, t, d))
  }

  /** What the test does not ask for: whole steps, and a wrap whose left part is
      where it is taken to be. */
  ghost predicate Sound(s: Operand, t: Operand, d: nat)
    requires Joins(s, t, d)
  {
    WholeSteps(s, d) && (t.Wrap? ==> WrapSound(t, d))
  }

  lemma JoinsKinds(s: Operand, t: Operand, d: nat)
    ensures !s.Slice? || !(t.Slice? || t.Wrap?) ==> !Joins(s, t, d)
    ensures s.Slice? && t.Slice? ==> (Joins(s, t, d) <==> Mergeable(s, t, d))
    ensures s.Slice? && t.Wrap? ==> (Joins(s, t, d) <==> Continues(s, t, d))
  {
  }

  ghost predicate JoinsWithin(ops: seq<Operand>, n: nat, d: nat) {
    exists k :: 0 <= k < n && k + 1 < |ops| && Joins(ops[k], ops[k + 1], d)
  }

  lemma JoinsNext(ops: seq<Operand>, n: nat, d: nat)
    ensures JoinsWithin(ops, n + 1, d) <==> JoinsWithin(ops, n, d) || (n + 1 < |ops| && Joins(ops[n], ops[n + 1], d))
  {
    hide Joins;
  }

  /** Neighbours that are merged are sound. */
  ghost predicate AllSound(ops: seq<Operand>, d: nat) {
    forall k | 0 <= k < |ops| - 1 && Joins(ops[k], ops[k + 1], d) :: Sound(ops[k], ops[k + 1], d)
  }

  lemma SoundAt(ops: seq<Operand>, k: nat, d: nat)
    requires AllSound(ops, d) && k + 1 < |ops| && Joins(ops[k], ops[k + 1], d)
    ensures Sound(ops[k], ops[k + 1], d)
  {
  }

  /** The merged slice ends as the last of its slices does and starts whole steps before it. */
  ghost predicate Ends(slice: Operand, last: Operand, d: nat) {
    && slice.Slice? && last.Slice? && Valid(slice) && Valid(last) && d < |slice.starts|
    && last.src == slice.src && last.limits == slice.limits && last.strides == slice.strides
    && |last.starts| == |slice.starts| && slice == last.(starts := last.starts[d := slice.starts[d]])
    && d < |slice.strides| && (last.starts[d] - slice.starts[d]) % slice.strides[d] == 0
  }

  lemma EndsStart(slice: Operand, d: nat)
    requires slice.Slice? && Valid(slice) && d < |slice.starts|
    ensures Ends(slice, slice, d)
  {
    assert slice.starts[d := slice.starts[d]] == slice.starts;
    StepRemainder(0, 0, slice.strides[d]);
  }

  /** The merged slice passes the test where the last of its slices does. */
  lemma EndsJoins(slice: Operand, last: Operand, t: Operand, d: nat)
    requires Ends(slice, last, d)
    ensures Joins(slice, t, d) <==> Joins(last, t, d)
  {
  }

  lemma EndsWhole(slice: Operand, last: Operand, d: nat)
    requires Ends(slice, last, d) && d < |last.starts| && WholeSteps(last, d)
    ensures WholeSteps(slice, d)
  {
    var st := slice.strides[d];
    var a, b := (last.starts[d] - slice.starts[d]) / st, (last.limits[d] - last.starts[d]) / st;
    assert slice.limits[d] - slice.starts[d] == st * (a + b);
    StepRemainder(slice.limits[d] - slice.starts[d], a + b, st);
  }

  lemma EndsNext(slice: Operand, t: Operand, d: nat, rest: seq<int>)
    requires Mergeable(slice, t, d) && WholeSteps(slice, d) && Joinable([slice], d, rest)
    ensures Ends(Merged(slice, t.limits), t, d) && Joinable([Merged(slice, t.limits)], d, rest)
  {
    MergedValid(slice, t, d, rest);
    var m := Merged(slice, t.limits);
    assert t.starts[d := m.starts[d]] == m.starts;
    assert t.strides == m.strides;
  }

  lemma ListSlice(ops: seq<Operand>, i: nat, d: nat, rest: seq<int>)
    requires Joinable(ops, d, rest) && i < |ops| && ops[i].Slice?
    ensures Valid(ops[i]) && d < |ops[i].starts|
  {
  }

  // ---------------------------------------------------------------- what the new list is

  /** What stands for a run of operands that are joined: the slice from the start of the
      first to the limit of the last, and after a wrap also its other parts. */
  ghost function RunParts(run: seq<Operand>): (r: seq<Operand>)
    requires |run| > 0
  {
    var first, last := run[0], run[|run| - 1];
    if |run| == 1 then run
    else if first.Slice? && last.Slice? then [Merged(first, last.limits)]
    else if first.Slice? && last.Wrap? && last.src.Slice? && Valid(last) then
      [Merged(first, last.src.limits)] + LowerWrap(last)[1..]
    else []
  }

  ghost predicate JoinedFrom(ops: seq<Operand>, a: nat, b: int, d: nat) {
    b < |ops| && forall i | a <= i < b :: Joins(ops[i], ops[i + 1], d)
  }

  /** Part k stands for the operands from cuts[k] to cuts[k + 1]: each is joined to the
      next one, and the last is not. */
  ghost predicate PartAt(ops: seq<Operand>, parts: seq<seq<Operand>>, cuts: seq<nat>, k: nat, d: nat)
    requires k < |parts| && k + 1 < |cuts|
  {
    && cuts[k] < cuts[k + 1] <= |ops| && parts[k] == RunParts(ops[cuts[k]..cuts[k + 1]])
    && JoinedFrom(ops, cuts[k], cuts[k + 1] - 1, d)
    && (cuts[k + 1] < |ops| ==> !Joins(ops[cuts[k + 1] - 1], ops[cuts[k + 1]], d))
  }

  ghost predicate Parts(ops: seq<Operand>, parts: seq<seq<Operand>>, cuts: seq<nat>, n: nat, d: nat) {
    && |cuts| == |parts| + 1 && cuts[0] == 0 && cuts[|parts|] == n <= |ops|
    && forall k: nat | k < |parts| :: PartAt(ops, parts, cuts, k, d)
  }

  ghost function Flat(parts: seq<seq<Operand>>): seq<Operand> {
    if parts == [] then [] else Flat(parts[..|parts| - 1]) + parts[|parts| - 1]
  }

  /** The new list is made of what stands for the runs, in order. */
  ghost predicate Simplified(ops: seq<Operand>, news: seq<Operand>, d: nat) {
    exists parts, cuts :: Parts(ops, parts, cuts, |ops|, d) && news == Flat(parts)
  }

  lemma NoParts(ops: seq<Operand>, d: nat)
    ensures Parts(ops, [], [0], 0, d) && Flat([]) == []
  {
  }

  lemma PartsNext(ops: seq<Operand>, parts: seq<seq<Operand>>, cuts: seq<nat>, a: nat, b: nat, r: seq<Operand>, d: nat)
    requires Parts(ops, parts, cuts, a, d) && a < b <= |ops| && r == RunParts(ops[a..b])
    requires JoinedFrom(ops, a, b - 1, d) && (b < |ops| ==> !Joins(ops[b - 1], ops[b], d))
    ensures Parts(ops, parts + [r], cuts + [b], b, d) && Flat(parts + [r]) == Flat(parts) + r
  {
    hide RunParts, Joins, JoinedFrom;
    var parts', cuts' := parts + [r], cuts + [b];
    assert parts'[..|parts|] == parts;
    forall k: nat | k < |parts'| ensures PartAt(ops, parts', cuts', k, d) {
      assert k < |parts| ==> PartAt(ops, parts, cuts, k, d);
    }
  }

  lemma AlonePart(ops: seq<Operand>, i: nat, d: nat)
    requires i < |ops|
    ensures RunParts(ops[i..i + 1]) == [ops[i]] && JoinedFrom(ops, i, i, d)
  {
  }

  lemma JoinedOn(ops: seq<Operand>, a: nat, i: nat, d: nat)
    requires JoinedFrom(ops, a, i, d) && i + 1 < |ops| && Joins(ops[i], ops[i + 1], d)
    ensures JoinedFrom(ops, a, i + 1, d)
  {
    hide Joins;
  }

  lemma MergedSelf(s: Operand, l: seq<int>, l': seq<int>)
    requires s.Slice?
    ensures Merged(s, s.limits) == s && Merged(s, l).Slice? && Merged(Merged(s, l), l') == Merged(s, l')
    ensures |Merged(s, l).starts| == |s.starts|
  {
  }

  lemma RunOf(ops: seq<Operand>, a: nat, b: nat)
    requires a <= b < |ops| && ops[a].Slice? && ops[b].Slice?
    ensures RunParts(ops[a..b + 1]) == [Merged(ops[a], ops[b].limits)]
  {
    var run := ops[a..b + 1];
    assert run[0] == ops[a] && run[|run| - 1] == ops[b];
    MergedSelf(ops[a], ops[a].limits, ops[a].limits);
  }

  lemma RunToWrap(ops: seq<Operand>, a: nat, b: nat)
    requires a < b < |ops| && ops[a].Slice? && ops[b].Wrap? && ops[b].src.Slice? && Valid(ops[b])
    ensures RunParts(ops[a..b + 1]) == [Merged(ops[a], ops[b].src.limits)] + LowerWrap(ops[b])[1..]
  {
    hide LowerWrap, Merged;
    var run := ops[a..b + 1];
    assert run[0] == ops[a] && run[|run| - 1] == ops[b];
  }

  /** The run from a to i, with its merged slice. */
  ghost predicate RunSoFar(ops: seq<Operand>, a: nat, i: nat, slice: Operand, d: nat) {
    && a <= i < |ops| && JoinedFrom(ops, a, i, d) && ops[a].Slice? && ops[i].Slice?
    && slice == Merged(ops[a], ops[i].limits)
  }

  lemma RunStart(ops: seq<Operand>, i: nat, d: nat)
    requires i < |ops| && ops[i].Slice?
    ensures RunSoFar(ops, i, i, ops[i], d)
  {
    MergedSelf(ops[i], ops[i].limits, ops[i].limits);
  }

  lemma RunNext(ops: seq<Operand>, a: nat, i: nat, slice: Operand, d: nat)
    requires RunSoFar(ops, a, i, slice, d) && i + 1 < |ops| && ops[i + 1].Slice? && Joins(ops[i], ops[i + 1], d)
    ensures slice.Slice? && RunSoFar(ops, a, i + 1, Merged(slice, ops[i + 1].limits), d)
  {
    hide Joins;
    MergedSelf(ops[a], ops[i].limits, ops[i + 1].limits);
    JoinedOn(ops, a, i, d);
  }

  lemma RunDone(ops: seq<Operand>, parts: seq<seq<Operand>>, cuts: seq<nat>, a: nat, i: nat, slice: Operand, d: nat)
    requires Parts(ops, parts, cuts, a, d) && RunSoFar(ops, a, i, slice, d)
    requires i + 1 < |ops| ==> !Joins(ops[i], ops[i + 1], d)
    ensures Parts(ops, parts + [[slice]], cuts + [i + 1], i + 1, d) && Flat(parts + [[slice]]) == Flat(parts) + [slice]
  {
    hide Joins, RunParts, Merged, Parts, Flat;
    RunOf(ops, a, i);
    PartsNext(ops, parts, cuts, a, i + 1, [slice], d);
  }

  lemma RunDoneByWrap(ops: seq<Operand>, parts: seq<seq<Operand>>, cuts: seq<nat>, a: nat, i: nat, slice: Operand, d: nat)
    requires Parts(ops, parts, cuts, a, d) && RunSoFar(ops, a, i, slice, d)
    requires i + 1 < |ops| && ops[i + 1].Wrap? && ops[i + 1].src.Slice? && Valid(ops[i + 1]) && Joins(ops[i], ops[i + 1], d)
    ensures slice.Slice?
    ensures var added := [Merged(slice, ops[i + 1].src.limits)] + LowerWrap(ops[i + 1])[1..];
      Parts(ops, parts + [added], cuts + [i + 2], i + 2, d) && Flat(parts + [added]) == Flat(parts) + added
  {
    MergedSelf(ops[a], ops[i].limits, ops[i + 1].src.limits);
    if i + 2 < |ops| { JoinsKinds(ops[i + 1], ops[i + 2], d); }
    hide Joins, RunParts, Merged, Parts, Flat, LowerWrap, Valid;
    JoinedOn(ops, a, i, d);
    RunToWrap(ops, a, i + 1);
    PartsNext(ops, parts, cuts, a, i + 2, [Merged(slice, ops[i + 1].src.limits)] + LowerWrap(ops[i + 1])[1..], d);
  }

  /** How much longer the list gets by joining an operand to the one before. */
  function JoinGain(e: Operand): int {
    if e.Wrap? then (if e.rhs != 0 then 1 else 0) else -1
  }

  ghost function Gain(ops: seq<Operand>, n: nat, d: nat): int {
    if n == 0 then 0 else Gain(ops, n - 1, d) + if n < |ops| && Joins(ops[n - 1], ops[n], d) then JoinGain(ops[n]) else 0
  }

  lemma {:induction false} GainRun(ops: seq<Operand>, a: nat, b: nat, d: nat)
    requires a < b < |ops| && JoinedFrom(ops, a, b, d)
    ensures Gain(ops, b, d) == Gain(ops, a, d) - (b - 1 - a) + JoinGain(ops[b])
    decreases b
  {
    hide Mergeable, Continues;
    assert Joins(ops[b - 1], ops[b], d);
    if a + 1 < b { GainRun(ops, a, b - 1, d); }
  }

  lemma RunLength(ops: seq<Operand>, a: nat, b: nat, d: nat)
    requires a <= b < |ops| && JoinedFrom(ops, a, b, d)
    ensures |RunParts(ops[a..b + 1])| == if a == b then 1 else 2 + JoinGain(ops[b])
  {
    hide Joins, Merged, LowerWrap, Valid, JoinGain;
    var run := ops[a..b + 1];
    assert run[0] == ops[a] && run[|run| - 1] == ops[b];
    if a < b {
      assert Joins(ops[a], ops[a + 1], d);
      assert Joins(ops[b - 1], ops[b], d);
      JoinedKind(ops[a], ops[a + 1], d);
      JoinedKind(ops[b - 1], ops[b], d);
    }
  }

  lemma JoinedKind(s: Operand, t: Operand, d: nat)
    requires Joins(s, t, d)
    ensures s.Slice? && (t.Slice? ==> JoinGain(t) == -1)
    ensures t.Slice? || (t.Wrap? && t.src.Slice? && Valid(t) && t.lhs != 0 && |LowerWrap(t)[1..]| == 1 + JoinGain(t))
  {
    hide Adjacent;
  }

  lemma {:induction false} PartsLength(ops: seq<Operand>, parts: seq<seq<Operand>>, cuts: seq<nat>, n: nat, d: nat)
    requires Parts(ops, parts, cuts, n, d)
    ensures |Flat(parts)| == n + Gain(ops, n, d)
    decreases |parts|
  {
    hide RunParts, Joins, JoinGain;
    if |parts| > 0 {
      var k := |parts| - 1;
      assert PartAt(ops, parts, cuts, k, d);
      var before, c := parts[..k], cuts[..k + 1];
      forall j: nat | j < k ensures PartAt(ops, before, c, j, d) { assert PartAt(ops, parts, cuts, j, d); }
      PartsLength(ops, before, c, cuts[k], d);
      RunLength(ops, cuts[k], n - 1, d);
      if cuts[k] < n - 1 { GainRun(ops, cuts[k], n - 1, d); }
    }
  }

  /** Each joined slice makes the list one operand shorter, and each joined wrap with a
      right part one longer. */
  lemma SimplifiedLength(ops: seq<Operand>, news: seq<Operand>, d: nat)
    requires Simplified(ops, news, d)
    ensures |news| == |ops| + Gain(ops, |ops|, d)
  {
    var parts, cuts :| Parts(ops, parts, cuts, |ops|, d) && news == Flat(parts);
    PartsLength(ops, parts, cuts, |ops|, d);
  }

  /** `concatSliceSimplify`: where the neighbours it merges are sound, the new list
      concatenates to the same tensor as the old one. */
  method ConcatSliceSimplify(operands: seq<Operand>, d: nat, rest: seq<int>)
    returns (changed: bool, newOperands: seq<Operand>)
    requires Joinable(operands, d, rest) && AllSound(operands, d)
    ensures SameTensor(newOperands, operands, d, rest)
    ensures changed <==> JoinsWithin(operands, |operands|, d)
    ensures !changed ==> newOperands == operands
    ensures Simplified(operands, newOperands, d)
  {
    hide Valid, Shape, Total, Concatenated, Joinable, SameTensor, WholeSteps, LowerWrap, Mergeable, Continues,
         AllSound, Sound, Ends, WrapSound, Adjacent, Merged, JoinsWithin, Joins, RunParts, Parts, Flat, JoinedFrom, RunSoFar;
    changed, newOperands := false, [];
    ghost var parts: seq<seq<Operand>>, cuts: seq<nat> := [], [0];
    NoParts(operands, d);
    NothingSame(operands, d, rest);
    var i := 0;
    while i < |operands|
      invariant i <= |operands| && SameTensor(newOperands, operands[..i], d, rest)
      invariant changed <==> JoinsWithin(operands, i, d)
      invariant !changed ==> newOperands == operands[..i]
      invariant Parts(operands, parts, cuts, i, d) && newOperands == Flat(parts)
    {
      var operand := operands[i];
      PrefixJoinable(operands, i, d, rest);
      JoinsNext(operands, i, d);
      if i + 1 < |operands| { JoinsKinds(operand, operands[i + 1], d); }
      SameRefl([operand], d, rest);
      AlonePart(operands, i, d);
      if !operand.Slice? {
        SameConcat(newOperands, operands[..i], [operand], [operand], d, rest);
        PartsNext(operands, parts, cuts, i, i + 1, [operand], d);
        newOperands, parts, cuts := newOperands + [operand], parts + [[operand]], cuts + [i + 1];
        i := i + 1;
        continue;
      }
      ghost var start, span := operands[..i], [operand];
      var slice, live := operand, true;
      ListSlice(operands, i, d, rest);
      EndsStart(slice, d);
      ghost var a := i;
      RunStart(operands, i, d);
      while i + 1 < |operands|
        invariant live && i < |operands| && slice.Slice? && Joinable([slice], d, rest) && Ends(slice, operands[i], d)
        invariant SameTensor([slice], span, d, rest) && start + span == operands[..i + 1]
        invariant changed <==> JoinsWithin(operands, i, d)
        invariant !changed ==> newOperands == start && span == [slice]
        invariant RunSoFar(operands, a, i, slice, d)
        decreases |operands| - i
      {
        var next := operands[i + 1];
        PrefixJoinable(operands, i + 1, d, rest);
        Regroup(start, span, next);
        JoinsNext(operands, i, d);
        EndsJoins(slice, operands[i], next, d);
        JoinsKinds(slice, next, d);
        if next.Slice? {
          var canMerge := CanMergeSlices(d, slice, next, operands, i + 1, rest);
          if !canMerge {
            break;
          }
          MergeFacts(operands, i, slice, d, rest);
          JoinSlice(slice, next, span, d, rest);
          RunNext(operands, a, i, slice, d);
          slice, changed, span := Merged(slice, next.limits), true, span + [next];
          i := i + 1;
          continue;
        }
        if next.Wrap? {
          var canMerge := CanMergeWrap(d, slice, next, operands, i + 1, rest);
          if canMerge {
            changed := true;
            WrapFacts(operands, i, slice, d, rest);
            JoinWrap(slice, next, span, d, rest);
            var added := [Merged(slice, next.src.limits)] + LowerWrap(next)[1..];
            SameConcat(newOperands, start, added, span + [next], d, rest);
            RunDoneByWrap(operands, parts, cuts, a, i, slice, d);
            newOperands, parts, cuts := newOperands + added, parts + [added], cuts + [i + 2];
            i := i + 1;
            live := false;
          }
        }
        break;
      }
      if !live && i + 1 < |operands| { JoinsKinds(operands[i], operands[i + 1], d); }
      JoinsNext(operands, i, d);
      if live {
        SameConcat(newOperands, start, [slice], span, d, rest);
        RunDone(operands, parts, cuts, a, i, slice, d);
        newOperands, parts, cuts := newOperands + [slice], parts + [[slice]], cuts + [i + 1];
      }
      i := i + 1;
    }
    assert operands[..|operands|] == operands;
  }

  /** What the next slice needs to be merged. */
  lemma MergeFacts(ops: seq<Operand>, i: nat, slice: Operand, d: nat, rest: seq<int>)
    requires AllSound(ops, d) && i + 1 < |ops| && Ends(slice, ops[i], d) && Joinable([slice], d, rest)
    requires ops[i + 1].Slice? && Mergeable(slice, ops[i + 1], d)
    ensures WholeSteps(slice, d) && Ends(Merged(slice, ops[i + 1].limits), ops[i + 1], d)
    ensures Merged(slice, ops[i + 1].limits).Slice? && Joinable([Merged(slice, ops[i + 1].limits)], d, rest)
  {
    hide Mergeable, WholeSteps, Adjacent, AllSound, Joinable;
    EndsJoins(slice, ops[i], ops[i + 1], d);
    SoundAt(ops, i, d);
    EndsWhole(slice, ops[i], d);
    EndsNext(slice, ops[i + 1], d, rest);
  }

  lemma WrapFacts(ops: seq<Operand>, i: nat, slice: Operand, d: nat, rest: seq<int>)
    requires AllSound(ops, d) && i + 1 < |ops| && Ends(slice, ops[i], d) && Continues(slice, ops[i + 1], d)
    ensures ops[i + 1].Wrap? && Valid(ops[i + 1]) && ops[i + 1].src.Slice? && WholeSteps(slice, d)
    ensures d < |ops[i + 1].src.strides| && d < |Shape(ops[i + 1].src)| && WrapSound(ops[i + 1], d)
  {
    hide WholeSteps, Adjacent, AllSound;
    ContinuesLengths(slice, ops[i + 1], d);
    EndsJoins(slice, ops[i], ops[i + 1], d);
    SoundAt(ops, i, d);
    EndsWhole(slice, ops[i], d);
  }

  lemma Regroup(a: seq<Operand>, b: seq<Operand>, e: Operand)
    ensures a + (b + [e]) == (a + b) + [e]
  {
  }

  lemma NothingSame(ops: seq<Operand>, d: nat, rest: seq<int>)
    requires Joinable(ops, d, rest)
    ensures SameTensor([], ops[..0], d, rest) && !JoinsWithin(ops, 0, d)
  {
  }

  /** `canMergeSlicesAlongAxis` on two slices: they must share their source. */
  method CanMergeSlices(d: nat, s: Operand, t: Operand, ghost ops: seq<Operand>, ghost i: nat, ghost rest: seq<int>)
    returns (canMerge: bool)
    requires s.Slice? && t.Slice? && Joinable([s], d, rest) && Joinable(ops, d, rest) && i < |ops| && ops[i] == t
    ensures canMerge <==> Mergeable(s, t, d)
  {
    assert Valid([s][0]) && Valid(t);
    if s.src != t.src {
      return false;
    }
    canMerge := CanMergeSlicesAlongAxis(d, s.starts, t.starts, s.limits, t.limits, s.strides, t.strides);
  }

  /** The test for a wrap. */
  method CanMergeWrap(d: nat, slice: Operand, wr: Operand, ghost ops: seq<Operand>, ghost i: nat, ghost rest: seq<int>)
    returns (canMerge: bool)
    requires slice.Slice? && Joinable([slice], d, rest) && wr.Wrap?
    requires Joinable(ops, d, rest) && i < |ops| && ops[i] == wr
    ensures canMerge <==> Continues(slice, wr, d)
  {
    assert Valid([slice][0]) && Valid(wr);
    if !(wr.src.Slice? && wr.src.src == slice.src && wr.lhs != 0) {
      return false;
    }
    assert Valid(wr.src);
    var starts := wr.src.starts;
    if wr.src.strides[d] == 1 {
      starts := starts[d := wr.src.limits[d] - wr.lhs];
    }
    canMerge := CanMergeSlicesAlongAxis(d, slice.starts, starts, slice.limits, wr.src.limits,
                                        slice.strides, wr.src.strides);
  }
}
