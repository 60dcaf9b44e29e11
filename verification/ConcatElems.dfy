/** Slices below chains of slices, unsqueezing reshapes and broadcasts,
    `findConcatSlicedElem`: one source, a permutation of its dimensions, and one
    slice that stands for all slices of the chain. */
module ConcatElems {
  import opened RowMajor
  import opened ReshapeLike
  import opened Operands
  import opened Wrappers

  // ---------------------------------------------------------------- unsqueezing reshapes

  /** Where the search for a dimension of size n stops, from j on. */
  function Stop(shape: seq<int>, j: nat, n: int): (k: nat)
    requires j < |shape|
    ensures j <= k < |shape|
    decreases |shape| - j
  {
    if j + 1 < |shape| && (n != shape[j] || shape[j] == 1) then Stop(shape, j + 1, n) else j
  }

  /** The places of the input dimensions among the output dimensions from j on, if
      each is found. */
  function MatchFrom(input: seq<int>, output: seq<int>, j: nat): (r: Option<seq<nat>>)
  {
    if input == [] then Some([])
    else if j >= |output| then None
    else
      var p := Stop(output, j, input[0]);
      if output[p] != input[0] then None
      else
        match MatchFrom(input[1..], output, p + 1)
        case None => None
        case Some(rest) => Some([p] + rest)
  }

  lemma {:induction false} MatchFacts(input: seq<int>, output: seq<int>, j: nat)
    requires MatchFrom(input, output, j).Some?
    ensures var p := MatchFrom(input, output, j).value;
      && |p| == |input| && Sorted(p) && (forall k | 0 <= k < |p| :: j <= p[k] < |output|)
      && forall k | 0 <= k < |p| :: output[p[k]] == input[k]
    decreases |input|
  {
    if input != [] {
      var p := Stop(output, j, input[0]);
      MatchFacts(input[1..], output, p + 1);
      var rest := MatchFrom(input[1..], output, p + 1).value;
      var all := [p] + rest;
      forall k, l | 0 <= k < l < |all| ensures all[k] < all[l] {
        if k == 0 { assert all[l] == rest[l - 1]; } else { assert all[k] == rest[k - 1] && all[l] == rest[l - 1]; }
      }
    }
  }

  /** p lists places from j on, in order, that hold the input. */
  ghost predicate Embeds(p: seq<nat>, input: seq<int>, output: seq<int>, j: nat) {
    && |p| == |input| && Sorted(p) && (forall k | 0 <= k < |p| :: j <= p[k] < |output|)
    && forall k | 0 <= k < |p| :: output[p[k]] == input[k]
  }

  /** Without sizes of one the search accepts exactly the insertions of dimensions. */
  lemma {:induction false} MatchSubsequence(input: seq<int>, output: seq<int>, j: nat)
    requires forall k | 0 <= k < |input| :: input[k] != 1
    ensures MatchFrom(input, output, j).Some? <==> exists p :: Embeds(p, input, output, j)
    decreases |input|
  {
    if MatchFrom(input, output, j).Some? {
      MatchFacts(input, output, j);
      assert Embeds(MatchFrom(input, output, j).value, input, output, j);
    }
    if p :| Embeds(p, input, output, j) {
      if input != [] {
        StopFirst(output, j, input[0], p[0]);
        MatchSubsequence(input[1..], output, Stop(output, j, input[0]) + 1);
        assert Embeds(p[1..], input[1..], output, Stop(output, j, input[0]) + 1);
      }
    }
  }

  lemma {:induction false} StopFirst(shape: seq<int>, j: nat, n: int, q: nat)
    requires j <= q < |shape| && shape[q] == n != 1
    ensures Stop(shape, j, n) <= q && shape[Stop(shape, j, n)] == n
    decreases |shape| - j
  {
    if j < q { if shape[j] != n { StopFirst(shape, j + 1, n, q); } }
  }

  /** A size of one is looked for in the last dimension only, whatever there is before. */
  lemma OneMatched(input: seq<int>, output: seq<int>, j: nat)
    requires input != [] && input[0] == 1
    ensures MatchFrom(input, output, j).Some? <==> |input| == 1 && j < |output| && output[|output| - 1] == 1
  {
    if j < |output| {
      StopLast(output, j);
      assert input[1..] == [] <==> |input| == 1;
    }
  }

  lemma {:induction false} StopLast(shape: seq<int>, j: nat)
    requires j < |shape|
    ensures Stop(shape, j, 1) == |shape| - 1
    decreases |shape| - j
  {
    if j + 1 < |shape| { StopLast(shape, j + 1); }
  }

  /** No input is matched by fewer dimensions. */
  lemma MatchShort(input: seq<int>, output: seq<int>)
    requires |output| < |input|
    ensures MatchFrom(input, output, 0).None?
  {
    if MatchFrom(input, output, 0).Some? {
      MatchFacts(input, output, 0);
      LongEnough(MatchFrom(input, output, 0).value, |output|);
    }
  }

  lemma {:induction false} LongEnough(p: seq<nat>, n: nat)
    requires Sorted(p) && forall k | 0 <= k < |p| :: p[k] < n
    ensures |p| <= n
    decreases |p|
  {
    if p != [] {
      LongEnough(p[..|p| - 1], p[|p| - 1]);
    }
  }

  /** `reshapeIsUnsqueeze` */
  method ReshapeIsUnsqueeze(input: seq<int>, output: seq<int>) returns (r: bool)
    ensures r <==> MatchFrom(input, output, 0).Some?
  {
    if |output| < |input| {
      MatchShort(input, output);
      return false;
    }
    var i, j := 0, 0;
    ghost var ok := MatchFrom(input, output, 0).Some?;
    assert input[0..] == input;
    while i < |input|
      invariant i <= |input| && (i < |input| ==> j < |output|)
      invariant ok <==> MatchFrom(input[i..], output, j).Some?
    {
      var n := input[i];
      assert input[i..][0] == n && input[i..][1..] == input[i + 1..];
      j := StopAt(output, j, n);
      if n != output[j] {
        return false;
      }
      j := j + 1;
      if i != |input| - 1 && j == |output| {
        assert input[i + 1..] != [];
        return false;
      }
      i := i + 1;
    }
    return true;
  }

  /** The inner loop. */
  method StopAt(shape: seq<int>, j0: nat, n: int) returns (j: nat)
    requires j0 < |shape|
    ensures j == Stop(shape, j0, n)
  {
    j := j0;
    while j + 1 < |shape| && (n != shape[j] || shape[j] == 1)
      invariant j0 <= j < |shape| && Stop(shape, j, n) == Stop(shape, j0, n)
    {
      j := j + 1;
    }
  }

  /** The dimensions that are not matched have size one. */
  lemma {:induction false} OthersUnit(shape: seq<int>, p: seq<nat>)
    requires Positive(shape) && Sorted(p) && forall k | 0 <= k < |p| :: p[k] < |shape|
    ensures Product(Picked(shape, p)) <= Product(shape)
    ensures Product(Picked(shape, p)) == Product(shape) ==> forall d: nat | d < |shape| && d !in p :: shape[d] == 1
    decreases |shape|
  {
    if shape == [] {
      assert p == [];
    } else {
      hide Product, Sorted, Picked;
      var n := |shape| - 1;
      var s, e := shape[..n], shape[n];
      assert shape == s + [e];
      ProductAppend(s, e);
      ProductPositive(s);
      if p != [] && p[|p| - 1] == n {
        var q := p[..|p| - 1];
        assert p == q + [n];
        BelowLast(p);
        OthersUnit(s, q);
        PickedNext(shape, q, n);
        PickedPrefix(shape, q, n);
        ProductAppend(Picked(s, q), e);
        ScaledOrder(Product(Picked(s, q)), Product(s), e);
      } else {
        BelowAll(p, n);
        OthersUnit(s, p);
        PickedPrefix(shape, p, n);
        GrownProduct(Product(s), e);
      }
    }
  }

  /** Dimensions of size one that are left out do not change what is kept. */
  lemma {:induction false} KeptOfPicked(shape: seq<int>, idx: Index, p: seq<nat>)
    requires |idx| == |shape| && Sorted(p) && forall k | 0 <= k < |p| :: p[k] < |shape|
    requires forall d: nat | d < |shape| && d !in p :: shape[d] == 1
    ensures NonUnit(Picked(shape, p)) == NonUnit(shape)
    ensures Kept(Picked(shape, p), Picked(idx, p)) == Kept(shape, idx)
    decreases |shape|
  {
    if shape == [] {
      assert p == [];
    } else {
      hide NonUnit, Kept, Sorted, Picked;
      var n := |shape| - 1;
      var s, i := shape[..n], idx[..n];
      assert shape == s + [shape[n]] && idx == i + [idx[n]];
      NonUnitAppend(s, shape[n], i, idx[n]);
      if p != [] && p[|p| - 1] == n {
        var q := p[..|p| - 1];
        assert p == q + [n];
        BelowLast(p);
        forall d: nat | d < n && d !in q ensures s[d] == 1 { assert d !in p; assert shape[d] == 1; }
        KeptOfPicked(s, i, q);
        PickedNext(shape, q, n);
        PickedNext(idx, q, n);
        PickedPrefix(shape, q, n);
        PickedPrefix(idx, q, n);
        NonUnitAppend(Picked(s, q), shape[n], Picked(i, q), idx[n]);
      } else {
        BelowAll(p, n);
        assert n !in p;
        forall d: nat | d < n && d !in p ensures s[d] == 1 { assert shape[d] == 1; }
        KeptOfPicked(s, i, p);
        PickedPrefix(shape, p, n);
        PickedPrefix(idx, p, n);
        AppendNothing(NonUnit(s));
        AppendNothing(Kept(s, i));
      }
    }
  }

  /** An unsqueezing reshape reads its source at the matched coordinates. */
  lemma UnsqueezeElement(e: Operand, p: seq<nat>, idx: Index)
    requires e.Reshape? && Valid(e) && InBounds(idx, e.dims) && Sorted(p)
    requires |p| == |Shape(e.src)| && forall k | 0 <= k < |p| :: p[k] < |e.dims| && e.dims[p[k]] == Shape(e.src)[k]
    ensures |Picked(idx, p)| == |Shape(e.src)| && InBounds(Picked(idx, p), Shape(e.src))
    ensures Valid(e.src) && Element(e, idx) == Element(e.src, Picked(idx, p))
  {
    hide Element, Linear, NonUnit, Kept, Product;
    var s := Shape(e.src);
    assert Picked(e.dims, p) == s;
    assert Positive(e.dims) && Positive(s);
    OthersUnit(e.dims, p);
    KeptOfPicked(e.dims, idx, p);
    LinearKept(e.dims, idx);
    LinearKept(s, Picked(idx, p));
    LinearThenMulti(Picked(idx, p), s);
    ReshapeAt(e, idx, Picked(idx, p));
  }

  lemma ReshapeAt(e: Operand, idx: Index, at: Index)
    requires e.Reshape? && Valid(e) && InBounds(idx, e.dims) && Positive(Shape(e.src))
    requires InBounds(at, Shape(e.src)) && Linear(at, Shape(e.src)) == Linear(idx, e.dims)
    ensures Valid(e.src) && Element(e, idx) == Element(e.src, at)
  {
    LinearThenMulti(at, Shape(e.src));
  }

  lemma MatchStep(input: seq<int>, output: seq<int>, p: seq<nat>, i: nat, j: nat)
    requires i < |input| == |p| && MatchFrom(input[i..], output, j) == Some(p[i..])
    ensures j < |output| && Stop(output, j, input[i]) == p[i]
    ensures MatchFrom(input[i + 1..], output, p[i] + 1) == Some(p[i + 1..])
    ensures p[..i + 1] == p[..i] + [p[i]]
  {
    assert input[i..][0] == input[i] && input[i..][1..] == input[i + 1..];
    assert p[i..][0] == p[i] && p[i..][1..] == p[i + 1..];
  }

  /** The second loop: the permutation without the added dimensions, and the input
      dimension that goes to sliceDim. */
  method UnsqueezePerm(input: seq<int>, output: seq<int>, perm: seq<nat>, sliceDim: int)
    returns (newPerm: seq<nat>, newSliceDim: int)
    requires MatchFrom(input, output, 0).Some? && |perm| == |output|
    ensures var p := MatchFrom(input, output, 0).value;
      && (forall k | 0 <= k < |p| :: p[k] < |perm|) && newPerm == Picked(perm, p)
      && if newSliceDim == -1 then sliceDim !in p else 0 <= newSliceDim < |p| && p[newSliceDim] == sliceDim
  {
    MatchFacts(input, output, 0);
    hide MatchFrom, Picked, Sorted;
    ghost var p := MatchFrom(input, output, 0).value;
    var i, j := 0, 0;
    newPerm, newSliceDim := [], -1;
    assert input[0..] == input && p[0..] == p && p[..0] == [];
    NothingPicked(perm);
    while i < |input| && j < |output|
      invariant i <= |input| == |p| && MatchFrom(input[i..], output, j) == Some(p[i..])
      invariant newPerm == Picked(perm, p[..i])
      invariant if newSliceDim == -1 then sliceDim !in p[..i] else 0 <= newSliceDim < i && p[newSliceDim] == sliceDim
    {
      MatchStep(input, output, p, i, j);
      PickedNext(perm, p[..i], p[i]);
      j := StopAt(output, j, input[i]);
      newPerm := newPerm + [perm[j]];
      if j == sliceDim {
        newSliceDim := i;
      }
      j := j + 1;
      i := i + 1;
    }
    MatchEnds(input, output, p, i, j);
    assert p[..|p|] == p;
  }

  lemma MatchEnds(input: seq<int>, output: seq<int>, p: seq<nat>, i: nat, j: nat)
    requires i <= |input| == |p| && MatchFrom(input[i..], output, j) == Some(p[i..])
    ensures j >= |output| ==> i == |input|
  {
  }

  lemma NothingPicked(perm: seq<nat>)
    ensures Picked(perm, []) == []
  {
  }

  // ---------------------------------------------------------------- what a chain reads

  /** The slice of one dimension of the source. */
  datatype Window = Window(dim: nat, start: int, limit: int, stride: int)

  /** The canonical form of orig: the window of a source, broadcast along a permutation. */
  datatype SlicedElem = SlicedElem(src: Operand, perm: seq<nat>, orig: Operand, window: Window)

  predicate WindowIn(w: Option<Window>, n: nat) {
    w.Some? ==> w.value.dim < n && w.value.stride > 0
  }

  /** The shape of the window. */
  function Sized(shape: seq<int>, w: Option<Window>): (r: seq<int>)
    requires WindowIn(w, |shape|)
    ensures |r| == |shape|
  {
    match w
    case None => shape
    case Some(v) => shape[v.dim := Extent(v.start, v.limit, v.stride)]
  }

  /** Where an index of the window lies in the source. */
  function Stepped(idx: Index, w: Option<Window>): (r: Index)
    requires WindowIn(w, |idx|)
    ensures |r| == |idx|
  {
    match w
    case None => idx
    case Some(v) => idx[v.dim := v.start + v.stride * idx[v.dim]]
  }

  predicate FitsIn(size: int, place: nat, shape: seq<int>) {
    place < |shape| && (size == 1 || size == shape[place])
  }

  ghost predicate FitsAll(perm: seq<nat>, sizes: seq<int>, shape: seq<int>)
    requires |perm| == |sizes|
  {
    forall k | 0 <= k < |perm| :: FitsIn(sizes[k], perm[k], shape)
  }

  /** e is the broadcast along perm of a window of o. */
  ghost predicate StandsFor(e: Operand, o: Operand, perm: seq<nat>, w: Option<Window>) {
    && Valid(e) && Valid(o) && |perm| == |Shape(o)| && Distinct(perm) && WindowIn(w, |perm|)
    && FitsAll(perm, Sized(Shape(o), w), Shape(e))
    && forall idx | InBounds(idx, Shape(e)) :: ReadsWindow(e, o, idx, perm, w)
  }

  ghost predicate ReadsWindow(e: Operand, o: Operand, idx: Index, perm: seq<nat>, w: Option<Window>)
    requires Valid(e) && Valid(o) && |idx| == |Shape(e)| && |perm| == |Shape(o)| && WindowIn(w, |perm|)
    requires FitsAll(perm, Sized(Shape(o), w), Shape(e))
  {
    var at := Stepped(Read(perm, Sized(Shape(o), w), idx), w);
    InBounds(at, Shape(o)) && Element(e, idx) == Element(o, at)
  }

  /** The window of a slice, below a window of its result. */
  function Narrowed(o: Operand, sd: nat, w: Option<Window>): Window
    requires o.Slice? && sd < |o.starts| == |o.limits| == |o.strides|
  {
    match w
    case None => Window(sd, o.starts[sd], o.limits[sd], o.strides[sd])
    case Some(v) =>
      Window(sd, o.starts[sd] + v.start * o.strides[sd], o.starts[sd] + v.limit * o.strides[sd], v.stride * o.strides[sd])
  }

  /** `getSliceDim`: the only dimension that is not taken whole. */
  predicate Partial(e: Operand, k: nat)
    requires e.Slice? && |e.starts| == |e.limits| == |e.strides| == |Shape(e.src)| && k < |e.starts|
  {
    !(e.starts[k] == 0 && e.limits[k] == Shape(e.src)[k] && e.strides[k] == 1)
  }

  ghost predicate OnlyDim(e: Operand, sd: nat) {
    && e.Slice? && Valid(e) && sd < |e.starts|
    && forall k: nat | k < |e.starts| && k != sd :: !Partial(e, k)
  }

  ghost predicate IsPartialDim(e: Operand, sd: nat) {
    OnlyDim(e, sd) && Partial(e, sd)
  }

  /** A broadcast may repeat the windowed dimension only if the window is its first
      element alone. */
  predicate Repeatable(n: int, m: int, w: Window)
    requires w.stride > 0
  {
    n == m || (w.start == 0 && Extent(w.start, w.limit, w.stride) <= 1)
  }

  /** Along the chain no broadcast repeats the windowed dimension under the window. */
  ghost predicate Steady(o: Operand, w: Option<Window>)
    requires w.Some? ==> w.value.stride > 0
  {
    match o
    case Slice(src, _, _, _) =>
      forall sd: nat | IsPartialDim(o, sd) && (w.Some? ==> w.value.dim == sd) ::
        NarrowedSteps(o, sd, w); Steady(src, Some(Narrowed(o, sd, w)))
    case Broadcast(src, places, dims) =>
      if w.None? then Steady(src, None)
      else forall k: nat | k < |places| && places[k] == w.value.dim ::
        && k < |Shape(src)| && places[k] < |dims| && Repeatable(Shape(src)[k], dims[places[k]], w.value)
        && Steady(src, Some(w.value.(dim := k)))
    case Reshape(src, dims) =>
      (match MatchFrom(Shape(src), dims, 0)
       case None => true
       case Some(p) =>
         if w.None? then Steady(src, None)
         else forall k: nat | k < |p| && p[k] == w.value.dim :: Steady(src, Some(w.value.(dim := k))))
    case _ => true
  }

  lemma NarrowedSteps(o: Operand, sd: nat, w: Option<Window>)
    requires OnlyDim(o, sd) && (w.Some? ==> w.value.stride > 0)
    ensures Narrowed(o, sd, w).stride > 0
  {
  }

  /** The chain has a slice of one dimension under reshapes and broadcasts. */
  ghost predicate Reaches(o: Operand) {
    match o
    case Slice(_, _, _, _) => exists sd: nat :: IsPartialDim(o, sd)
    case Broadcast(src, _, _) => Reaches(src)
    case Reshape(src, dims) => MatchFrom(Shape(src), dims, 0).Some? && Reaches(src)
    case _ => false
  }

  /** Layers of broadcasts and unsqueezing reshapes do not hide a slice. */
  lemma ReachesLayers(src: Operand, places: seq<nat>, dims: seq<int>, sd: nat)
    ensures Reaches(Broadcast(src, places, dims)) <==> Reaches(src)
    ensures MatchFrom(Shape(src), dims, 0).Some? ==> (Reaches(Reshape(src, dims)) <==> Reaches(src))
    ensures IsPartialDim(src, sd) ==> Reaches(src)
  {
  }

  /** The search for a window of dimension dim cannot go below o. */
  ghost predicate EndsAt(o: Operand, dim: nat) {
    match o
    case Slice(_, _, _, _) => !IsPartialDim(o, dim)
    case Broadcast(_, places, _) => dim !in places
    case Reshape(src, dims) =>
      MatchFrom(Shape(src), dims, 0).Some? ==> dim !in MatchFrom(Shape(src), dims, 0).value
    case _ => true
  }

  function Depth(o: Operand): nat {
    match o
    case Leaf(_, _) => 0
    case Slice(src, _, _, _) => 1 + Depth(src)
    case Wrap(src, _, _, _) => 1 + Depth(src)
    case Transpose(src, _) => 1 + Depth(src)
    case Reshape(src, _) => 1 + Depth(src)
    case Broadcast(src, _, _) => 1 + Depth(src)
  }

  // ---------------------------------------------------------------- one layer

  /** o reads src at the places p. */
  ghost predicate ReadsThrough(o: Operand, src: Operand, p: seq<nat>) {
    && Valid(o) && Valid(src) && |p| == |Shape(src)| && Distinct(p) && FitsAll(p, Shape(src), Shape(o))
    && forall at | InBounds(at, Shape(o)) :: ReadsPlaces(o, src, p, at)
  }

  ghost predicate ReadsPlaces(o: Operand, src: Operand, p: seq<nat>, at: Index)
    requires Valid(o) && Valid(src) && |p| == |Shape(src)| && |at| == |Shape(o)| && FitsAll(p, Shape(src), Shape(o))
  {
    var to := Read(p, Shape(src), at);
    InBounds(to, Shape(src)) && Element(o, at) == Element(src, to)
  }

  lemma BroadcastReads(o: Operand)
    requires o.Broadcast? && Valid(o)
    ensures ReadsThrough(o, o.src, o.places)
  {
    hide Shape;
    BroadcastShape(o);
    forall k | 0 <= k < |o.places| ensures FitsIn(Shape(o.src)[k], o.places[k], Shape(o)) {}
    forall at | InBounds(at, Shape(o)) ensures ReadsPlaces(o, o.src, o.places, at) {}
  }

  lemma BroadcastShape(o: Operand)
    requires o.Broadcast?
    ensures Shape(o) == o.dims
  {
  }

  lemma UnsqueezeReads(o: Operand)
    requires o.Reshape? && Valid(o) && MatchFrom(Shape(o.src), o.dims, 0).Some?
    ensures ReadsThrough(o, o.src, MatchFrom(Shape(o.src), o.dims, 0).value)
  {
    hide Element, Valid;
    MatchFacts(Shape(o.src), o.dims, 0);
    var p := MatchFrom(Shape(o.src), o.dims, 0).value;
    ReshapeValid(o);
    forall at | InBounds(at, Shape(o)) ensures ReadsPlaces(o, o.src, p, at) {
      UnsqueezeElement(o, p, at);
      assert Read(p, Shape(o.src), at) == Picked(at, p);
    }
  }

  lemma ReshapeValid(o: Operand)
    requires o.Reshape? && Valid(o)
    ensures Valid(o.src) && Shape(o) == o.dims
  {
  }

  /** The window on the dimension of src that goes to the windowed one. */
  ghost predicate SentTo(w: Option<Window>, w': Option<Window>, p: seq<nat>) {
    match w
    case None => w'.None?
    case Some(v) => w'.Some? && w'.value.dim < |p| && p[w'.value.dim] == v.dim && w'.value == v.(dim := w'.value.dim)
  }

  ghost predicate RepeatsSoundly(w: Option<Window>, w': Option<Window>, p: seq<nat>, shape: seq<int>, dims: seq<int>) {
    w.Some? ==>
      && w'.Some? && w'.value.dim < |p| && w'.value.dim < |shape| && p[w'.value.dim] < |dims| && w.value.stride > 0
      && Repeatable(shape[w'.value.dim], dims[p[w'.value.dim]], w.value)
  }

  lemma ThroughFits(sh: seq<int>, shape: seq<int>, dims: seq<int>, perm: seq<nat>, w: Option<Window>,
                    p: seq<nat>, w': Option<Window>)
    requires |perm| == |dims| && WindowIn(w, |perm|) && FitsAll(perm, Sized(dims, w), sh) && Distinct(perm)
    requires |p| == |shape| && Distinct(p) && FitsAll(p, shape, dims) && SentTo(w, w', p)
    ensures forall k | 0 <= k < |p| :: p[k] < |perm|
    ensures forall k | 0 <= k < |p| :: Picked(perm, p)[k] >= 0
    ensures WindowIn(w', |p|) && FitsAll(Picked(perm, p), Sized(shape, w'), sh) && Distinct(Picked(perm, p))
  {
    hide Extent;
    PlacesIn(p, shape, dims);
    var q, z, z' := Picked(perm, p), Sized(dims, w), Sized(shape, w');
    forall k | 0 <= k < |p| ensures FitsIn(z'[k], q[k], sh) {
      assert FitsIn(shape[k], p[k], dims) && FitsIn(z[p[k]], perm[p[k]], sh);
    }
  }

  lemma ThroughIndex(sh: seq<int>, shape: seq<int>, dims: seq<int>, perm: seq<nat>, w: Option<Window>,
                     p: seq<nat>, w': Option<Window>, idx: Index)
    requires |perm| == |dims| && WindowIn(w, |perm|) && FitsAll(perm, Sized(dims, w), sh) && Distinct(perm)
    requires |p| == |shape| && Distinct(p) && FitsAll(p, shape, dims) && SentTo(w, w', p)
    requires RepeatsSoundly(w, w', p, shape, dims)
    requires InBounds(idx, sh) && InBounds(Stepped(Read(perm, Sized(dims, w), idx), w), dims)
    ensures WindowIn(w', |p|) && |Picked(perm, p)| == |p| && forall k | 0 <= k < |p| :: Picked(perm, p)[k] < |sh|
    ensures Read(p, shape, Stepped(Read(perm, Sized(dims, w), idx), w))
         == Stepped(Read(Picked(perm, p), Sized(shape, w'), idx), w')
  {
    hide Extent;
    ThroughFits(sh, shape, dims, perm, w, p, w');
    var q, z, z' := Picked(perm, p), Sized(dims, w), Sized(shape, w');
    forall k | 0 <= k < |p| ensures q[k] < |sh| { assert FitsIn(z'[k], q[k], sh); }
    var at, to := Stepped(Read(perm, z, idx), w), Stepped(Read(q, z', idx), w');
    forall k | 0 <= k < |p| ensures Read(p, shape, at)[k] == to[k] {
      assert FitsIn(shape[k], p[k], dims) && FitsIn(z[p[k]], perm[p[k]], sh) && 0 <= at[p[k]] < dims[p[k]];
      if w.Some? && k == w'.value.dim {
        assert z'[k] == z[p[k]] == Extent(w.value.start, w.value.limit, w.value.stride);
      }
    }
  }

  lemma StepThrough(e: Operand, o: Operand, src: Operand, perm: seq<nat>, w: Option<Window>, p: seq<nat>, w': Option<Window>)
    requires StandsFor(e, o, perm, w) && ReadsThrough(o, src, p) && SentTo(w, w', p)
    requires RepeatsSoundly(w, w', p, Shape(src), Shape(o))
    ensures (forall k | 0 <= k < |p| :: p[k] < |perm|) && StandsFor(e, src, Picked(perm, p), w')
  {
    hide Element, Valid, Shape, RepeatsSoundly, SentTo, Stepped, Read, Sized, InBounds, Picked;
    PlacesIn(p, Shape(src), Shape(o));
    ThroughFits(Shape(e), Shape(src), Shape(o), perm, w, p, w');
    forall idx | InBounds(idx, Shape(e)) ensures |idx| == |Shape(e)| && ReadsWindow(e, src, idx, Picked(perm, p), w') {
      SameLength(idx, Shape(e));
      assert ReadsWindow(e, o, idx, perm, w);
      ThroughReads(e, o, src, perm, w, p, w', idx);
    }
  }

  lemma PlacesIn(p: seq<nat>, shape: seq<int>, dims: seq<int>)
    requires |p| == |shape| && FitsAll(p, shape, dims)
    ensures forall k | 0 <= k < |p| :: p[k] < |dims|
  {
    forall k | 0 <= k < |p| ensures p[k] < |dims| { assert FitsIn(shape[k], p[k], dims); }
  }

  lemma ThroughReads(e: Operand, o: Operand, src: Operand, perm: seq<nat>, w: Option<Window>,
                     p: seq<nat>, w': Option<Window>, idx: Index)
    requires Valid(e) && Valid(o) && |perm| == |Shape(o)| && Distinct(perm) && WindowIn(w, |perm|)
    requires FitsAll(perm, Sized(Shape(o), w), Shape(e))
    requires ReadsThrough(o, src, p) && SentTo(w, w', p) && RepeatsSoundly(w, w', p, Shape(src), Shape(o))
    requires InBounds(idx, Shape(e)) && ReadsWindow(e, o, idx, perm, w)
    requires (forall k | 0 <= k < |p| :: p[k] < |perm|) && WindowIn(w', |p|)
    requires FitsAll(Picked(perm, p), Sized(Shape(src), w'), Shape(e))
    ensures ReadsWindow(e, src, idx, Picked(perm, p), w')
  {
    hide Element, Valid, Shape, RepeatsSoundly, SentTo, Stepped, Read, Sized, Picked, Distinct;
    ThroughIndex(Shape(e), Shape(src), Shape(o), perm, w, p, w', idx);
    assert ReadsPlaces(o, src, p, Stepped(Read(perm, Sized(Shape(o), w), idx), w));
  }

  lemma SameLength(idx: Index, shape: seq<int>)
    requires InBounds(idx, shape)
    ensures |idx| == |shape|
  {
  }

  // ---------------------------------------------------------------- one slice

  lemma ScaledExtent(start: int, limit: int, stride: int, s: int, m: int)
    requires stride > 0 && m > 0
    ensures stride * m > 0 && Extent(s + start * m, s + limit * m, stride * m) == Extent(start, limit, stride)
  {
    var x := limit - start + stride - 1;
    var q, r := x / stride, x % stride;
    Above(m, stride);
    ScaledRemainder(r, stride, m);
    ScaledSum(x, stride, q, r, m);
    Distributed(limit, start, stride, m);
    Divides(x * m + m - 1, q, r * m + m - 1, stride * m);
  }

  lemma ScaledRemainder(r: int, stride: int, m: int)
    requires 0 <= r < stride && m > 0
    ensures 0 <= r * m + m - 1 < stride * m
  {
    Above(m, stride - r);
    assert stride * m == r * m + m * (stride - r);
    if r > 0 { Above(m, r); }
  }

  lemma ScaledSum(x: int, stride: int, q: int, r: int, m: int)
    requires x == stride * q + r
    ensures x * m + m - 1 == stride * m * q + (r * m + m - 1)
  {
    assert (stride * q + r) * m == stride * m * q + r * m;
  }

  lemma Distributed(limit: int, start: int, stride: int, m: int)
    ensures (limit - start + stride - 1) * m + m == limit * m - start * m + stride * m
  {
  }

  lemma WholeExtent(n: int)
    ensures Extent(0, n, 1) == n
  {
  }

  /** The last element of a slice lies below its limit. */
  lemma ExtentReach(start: int, limit: int, stride: int, j: int)
    requires stride > 0 && 0 <= j < Extent(start, limit, stride)
    ensures start <= start + stride * j < limit
  {
    var x := limit - start + stride - 1;
    assert stride * j <= stride * (x / stride - 1);
  }

  lemma SliceFacts(o: Operand, sd: nat)
    requires OnlyDim(o, sd)
    ensures Valid(o.src) && |Shape(o)| == |Shape(o.src)| == |o.starts| == |o.limits| == |o.strides| && o.strides[sd] > 0
    ensures Shape(o)[sd] == Extent(o.starts[sd], o.limits[sd], o.strides[sd])
    ensures Shape(o) == Shape(o.src)[sd := Shape(o)[sd]]
    ensures forall at | InBounds(at, Shape(o)) :: InSlice(o, sd, at)
  {
    hide Extent, Element;
    var n := |Shape(o)|;
    forall k: nat | k < n && k != sd ensures Shape(o)[k] == Shape(o.src)[k] {
      assert !Partial(o, k);
      WholeExtent(o.limits[k]);
    }
    forall at | InBounds(at, Shape(o)) ensures |at| == n && InSlice(o, sd, at) {
      SliceElement(o, at);
      ExtentReach(o.starts[sd], o.limits[sd], o.strides[sd], at[sd]);
      var to := at[sd := o.starts[sd] + o.strides[sd] * at[sd]];
      forall k: nat | k < n ensures Source(o.starts, o.strides, at)[k] == to[k] {
        if k != sd { assert !Partial(o, k); }
      }
      assert Source(o.starts, o.strides, at) == to;
    }
  }

  ghost predicate InSlice(o: Operand, sd: nat, at: Index)
    requires OnlyDim(o, sd) && |at| == |Shape(o)|
  {
    var to := at[sd := o.starts[sd] + o.strides[sd] * at[sd]];
    InBounds(to, Shape(o.src)) && Element(o, at) == Element(o.src, to)
  }

  lemma NarrowedFits(o: Operand, sd: nat, w: Option<Window>)
    requires OnlyDim(o, sd) && WindowIn(w, |Shape(o)|) && (w.Some? ==> w.value.dim == sd)
    ensures |Shape(o.src)| == |Shape(o)| && Narrowed(o, sd, w).stride > 0 && Narrowed(o, sd, w).dim == sd < |Shape(o)|
    ensures Sized(Shape(o.src), Some(Narrowed(o, sd, w))) == Sized(Shape(o), w)
  {
    SliceFacts(o, sd);
    NarrowedSteps(o, sd, w);
    var shape := Shape(o);
    hide Shape, Element, OnlyDim, Extent;
    if w.Some? {
      ScaledExtent(w.value.start, w.value.limit, w.value.stride, o.starts[sd], o.strides[sd]);
    }
  }

  lemma NarrowedIndex(o: Operand, sd: nat, w: Option<Window>, c: Index)
    requires OnlyDim(o, sd) && WindowIn(w, |Shape(o)|) && (w.Some? ==> w.value.dim == sd) && |c| == |Shape(o)|
    ensures Narrowed(o, sd, w).stride > 0 && Narrowed(o, sd, w).dim == sd < |c|
    ensures var at := Stepped(c, w);
      Stepped(c, Some(Narrowed(o, sd, w))) == at[sd := o.starts[sd] + o.strides[sd] * at[sd]]
  {
    NarrowedFits(o, sd, w);
    hide Shape, Element;
    if w.Some? {
      Rescaled(o.starts[sd], o.strides[sd], w.value.start, w.value.stride, c[sd]);
    }
  }

  lemma Rescaled(s: int, m: int, start: int, stride: int, j: int)
    ensures s + start * m + stride * m * j == s + m * (start + stride * j)
  {
  }

  lemma StepSlice(e: Operand, o: Operand, perm: seq<nat>, w: Option<Window>, sd: nat)
    requires StandsFor(e, o, perm, w) && OnlyDim(o, sd) && (w.Some? ==> w.value.dim == sd)
    ensures StandsFor(e, o.src, perm, Some(Narrowed(o, sd, w)))
  {
    SliceFacts(o, sd);
    NarrowedFits(o, sd, w);
    hide Element, Valid, Shape, Stepped, Read, Sized, InBounds, OnlyDim, Narrowed, Distinct, InSlice;
    var w' := Some(Narrowed(o, sd, w));
    forall idx | InBounds(idx, Shape(e)) ensures |idx| == |Shape(e)| && ReadsWindow(e, o.src, idx, perm, w') {
      SameLength(idx, Shape(e));
      assert ReadsWindow(e, o, idx, perm, w);
      SliceReads(e, o, perm, w, sd, idx);
    }
  }

  lemma SliceReads(e: Operand, o: Operand, perm: seq<nat>, w: Option<Window>, sd: nat, idx: Index)
    requires Valid(e) && Valid(o) && OnlyDim(o, sd) && |perm| == |Shape(o)| && WindowIn(w, |perm|)
    requires FitsAll(perm, Sized(Shape(o), w), Shape(e)) && (w.Some? ==> w.value.dim == sd)
    requires InBounds(idx, Shape(e)) && |idx| == |Shape(e)| && ReadsWindow(e, o, idx, perm, w)
    requires Valid(o.src) && |Shape(o.src)| == |perm| && WindowIn(Some(Narrowed(o, sd, w)), |perm|)
    requires Sized(Shape(o.src), Some(Narrowed(o, sd, w))) == Sized(Shape(o), w)
    ensures ReadsWindow(e, o.src, idx, perm, Some(Narrowed(o, sd, w)))
  {
    hide Element, Valid, Shape, Stepped, Read, Sized, InBounds, OnlyDim, Narrowed;
    SliceReadsAt(o, sd, w, Read(perm, Sized(Shape(o), w), idx));
  }

  lemma SliceReadsAt(o: Operand, sd: nat, w: Option<Window>, c: Index)
    requires OnlyDim(o, sd) && WindowIn(w, |Shape(o)|) && (w.Some? ==> w.value.dim == sd)
    requires |c| == |Shape(o)| && InBounds(Stepped(c, w), Shape(o))
    ensures Valid(o) && Valid(o.src) && |Shape(o.src)| == |c| && WindowIn(Some(Narrowed(o, sd, w)), |c|)
    ensures InBounds(Stepped(c, Some(Narrowed(o, sd, w))), Shape(o.src))
    ensures Element(o, Stepped(c, w)) == Element(o.src, Stepped(c, Some(Narrowed(o, sd, w))))
  {
    SliceFacts(o, sd);
    NarrowedFits(o, sd, w);
    hide Element, Valid, Shape, Stepped, InBounds, Narrowed;
    NarrowedIndex(o, sd, w, c);
    assert InSlice(o, sd, Stepped(c, w));
  }

  lemma StandsForSelf(e: Operand)
    requires Valid(e)
    ensures StandsFor(e, e, seq(|Shape(e)|, i => i), None)
  {
    hide Element, Valid, Shape;
    var id := seq(|Shape(e)|, i => i);
    forall idx | InBounds(idx, Shape(e)) ensures ReadsWindow(e, e, idx, id, None) {
      assert Read(id, Shape(e), idx) == idx;
    }
  }

  // ---------------------------------------------------------------- the search

  /** A dimension counts as sliced exactly if its size changes or its stride is not 1. */
  lemma PartialExactly(e: Operand, k: nat)
    requires e.Slice? && Valid(e) && k < |e.starts|
    ensures |e.strides| == |Shape(e)| == |Shape(e.src)| == |e.starts| == |e.limits|
    ensures Partial(e, k) <==> Shape(e)[k] != Shape(e.src)[k] || e.strides[k] != 1
  {
  }

  method GetSliceDim(slice: Operand) returns (sliceDim: int)
    requires slice.Slice? && Valid(slice)
    ensures sliceDim >= -1
    ensures sliceDim >= 0 ==> IsPartialDim(slice, sliceDim)
    ensures sliceDim == -1 ==> forall k :: !IsPartialDim(slice, k)
  {
    sliceDim := -1;
    for idx := 0 to |slice.starts|
      invariant -1 <= sliceDim < idx
      invariant sliceDim == -1 ==> forall k: nat | k < idx :: !Partial(slice, k)
      invariant sliceDim >= 0 ==> Partial(slice, sliceDim) && forall k: nat | k < idx && k != sliceDim :: !Partial(slice, k)
    {
      if !(slice.starts[idx] == 0 && slice.limits[idx] == Shape(slice.src)[idx] && slice.strides[idx] == 1) {
        if sliceDim != -1 {
          TwoPartial(slice, sliceDim, idx);
          return -1;
        }
        sliceDim := idx;
      }
    }
  }

  lemma TwoPartial(e: Operand, a: nat, b: nat)
    requires e.Slice? && Valid(e) && a < b < |e.starts| && Partial(e, a) && Partial(e, b)
    ensures forall k :: !IsPartialDim(e, k)
  {
  }

  /** The input dimension sent to d. */
  method FirstPlace(places: seq<nat>, d: nat) returns (newDim: int)
    ensures if newDim == -1 then d !in places else 0 <= newDim < |places| && places[newDim] == d
  {
    for i := 0 to |places|
      invariant d !in places[..i]
    {
      if places[i] == d {
        return i;
      }
    }
    return -1;
  }

  lemma PermutedPlaces(e: Operand, o: Operand, perm: seq<nat>, w: Option<Window>)
    requires StandsFor(e, o, perm, w)
    ensures Valid(o) && |perm| == |Shape(o)| && WindowIn(w, |perm|)
    ensures o.Broadcast? ==> |o.places| == |Shape(o.src)| && forall k | 0 <= k < |o.places| :: o.places[k] < |perm|
  {
  }

  lemma BroadcastSteady(o: Operand, w: Option<Window>, k: nat)
    requires (w.Some? ==> w.value.stride > 0) && o.Broadcast? && Valid(o) && Steady(o, w)
    requires w.Some? ==> k < |o.places| && o.places[k] == w.value.dim
    ensures var w' := if w.None? then None else Some(w.value.(dim := k));
      SentTo(w, w', o.places) && RepeatsSoundly(w, w', o.places, Shape(o.src), Shape(o)) && Steady(o.src, w')
  {
  }

  lemma ReshapeSteady(o: Operand, w: Option<Window>, k: nat)
    requires (w.Some? ==> w.value.stride > 0) && o.Reshape? && Valid(o) && Steady(o, w)
    requires MatchFrom(Shape(o.src), o.dims, 0).Some?
    requires w.Some? ==> k < |MatchFrom(Shape(o.src), o.dims, 0).value| && MatchFrom(Shape(o.src), o.dims, 0).value[k] == w.value.dim
    ensures var w' := if w.None? then None else Some(w.value.(dim := k));
      var p := MatchFrom(Shape(o.src), o.dims, 0).value;
      SentTo(w, w', p) && RepeatsSoundly(w, w', p, Shape(o.src), Shape(o)) && Steady(o.src, w')
  {
    MatchFacts(Shape(o.src), o.dims, 0);
  }

  /** The inner loop: broadcasts and unsqueezing reshapes down to a slice. */
  method Peel(ghost e: Operand, o: Operand, perm: seq<nat>, w: Option<Window>)
    returns (operand: Operand, iperm: seq<nat>, window: Option<Window>)
    requires StandsFor(e, o, perm, w) && Steady(o, w)
    ensures StandsFor(e, operand, iperm, window) && Steady(operand, window)
    ensures Depth(operand) <= Depth(o) && window.Some? == w.Some?
    ensures w.None? ==> (Reaches(o) <==> Reaches(operand)) && (!operand.Slice? ==> !Reaches(operand))
    ensures window.Some? && !operand.Slice? ==> EndsAt(operand, window.value.dim)
  {
    hide StandsFor, Steady, Valid, SentTo, RepeatsSoundly, ReadsThrough;
    PermutedPlaces(e, o, perm, w);
    operand, iperm, window := o, perm, w;
    while !operand.Slice?
      invariant StandsFor(e, operand, iperm, window) && (window.Some? ==> window.value.stride > 0) && Steady(operand, window)
      invariant Depth(operand) <= Depth(o) && window.Some? == w.Some?
      invariant w.None? ==> (Reaches(o) <==> Reaches(operand))
      decreases Depth(operand)
    {
      PermutedPlaces(e, operand, iperm, window);
      var newDim := 0;
      match operand
      case Broadcast(src, places, dims) =>
        if window.Some? {
          newDim := FirstPlace(places, window.value.dim);
          if newDim == -1 {
            return;
          }
        }
        BroadcastReads(operand);
        BroadcastSteady(operand, window, newDim);
        var next := if window.None? then None else Some(window.value.(dim := newDim));
        StepThrough(e, operand, src, iperm, window, places, next);
        iperm, window := Picked(iperm, places), next;
        operand := src;
      case Reshape(src, dims) =>
        var unsqueeze := ReshapeIsUnsqueeze(Shape(src), dims);
        if !unsqueeze {
          return;
        }
        var newPerm;
        newPerm, newDim := UnsqueezePerm(Shape(src), dims, iperm, if window.Some? then window.value.dim else -1);
        if window.Some? && newDim == -1 {
          return;
        }
        UnsqueezeReads(operand);
        ReshapeSteady(operand, window, if window.Some? then newDim else 0);
        var next := if window.None? then None else Some(window.value.(dim := newDim));
        StepThrough(e, operand, src, iperm, window, MatchFrom(Shape(src), dims, 0).value, next);
        iperm, window := newPerm, next;
        operand := src;
      case _ =>
        return;
    }
  }

  lemma SliceSteady(o: Operand, w: Option<Window>, sd: nat)
    requires (w.Some? ==> w.value.stride > 0 && w.value.dim == sd) && Steady(o, w) && IsPartialDim(o, sd)
    ensures Narrowed(o, sd, w).stride > 0 && Steady(o.src, Some(Narrowed(o, sd, w)))
  {
  }

  /** `findConcatSlicedElem` */
  method FindConcatSlicedElem(e: Operand) returns (r: Option<SlicedElem>)
    requires Valid(e) && Steady(e, None)
    ensures r.Some? <==> Reaches(e)
    ensures r.Some? ==> r.value.orig == e && StandsFor(e, r.value.src, r.value.perm, Some(r.value.window))
    ensures r.Some? ==> EndsAt(r.value.src, r.value.window.dim)
  {
    hide StandsFor, Steady, Valid, Partial;
    var operand := e;
    var iperm: seq<nat>, window: Option<Window> := seq(|Shape(e)|, i => i), None;
    StandsForSelf(e);
    while true
      invariant StandsFor(e, operand, iperm, window) && (window.Some? ==> window.value.stride > 0) && Steady(operand, window)
      invariant if window.None? then (Reaches(e) <==> Reaches(operand)) else Reaches(e)
      decreases Depth(operand)
    {
      operand, iperm, window := Peel(e, operand, iperm, window);
      PermutedPlaces(e, operand, iperm, window);
      if !operand.Slice? {
        break;
      }
      var newSliceDim := GetSliceDim(operand);
      if newSliceDim == -1 || (window.Some? && window.value.dim != newSliceDim) {
        break;
      }
      StepSlice(e, operand, iperm, window, newSliceDim);
      SliceSteady(operand, window, newSliceDim);
      window := Some(Narrowed(operand, newSliceDim, window));
      operand := operand.src;
    }
    if window.None? {
      return None;
    }
    return Some(SlicedElem(operand, iperm, e, window.value));
  }

  // ---------------------------------------------------------------- repeated windows

  /** A slice of a broadcast dimension: the window that is taken for it is right
      exactly if the dimension is not repeated, or the window is its first element. */
  lemma RepeatExact(e: Operand, sd: nat, k: nat)
    requires IsPartialDim(e, sd) && e.src.Broadcast? && e.src.src.Leaf?
    requires k < |e.src.places| && e.src.places[k] == sd
    requires forall j | 0 <= j < |Shape(e)| :: Shape(e)[j] > 0
    ensures k < |e.src.src.dims| && e.strides[sd] > 0 && sd < |e.src.dims|
    ensures var w := Window(k, e.starts[sd], e.limits[sd], e.strides[sd]);
      StandsFor(e, e.src.src, e.src.places, Some(w)) <==> Repeatable(e.src.src.dims[k], e.src.dims[sd], w)
  {
    var o, leaf := e.src, e.src.src;
    SliceFacts(e, sd);
    BroadcastShape(o);
    var w := Window(k, e.starts[sd], e.limits[sd], e.strides[sd]);
    if Repeatable(leaf.dims[k], o.dims[sd], w) {
      StandsForSelf(e);
      IdentityPlaces(o.places, |Shape(e)|);
      StepSlice(e, e, seq(|Shape(e)|, i => i), None, sd);
      BroadcastReads(o);
      StepThrough(e, o, leaf, seq(|Shape(e)|, i => i), Some(Narrowed(e, sd, None)), o.places, Some(w));
    }
    if StandsFor(e, leaf, o.places, Some(w)) {
      RepeatMisses(e, sd, k);
    }
  }

  lemma IdentityPlaces(p: seq<nat>, n: nat)
    requires forall k | 0 <= k < |p| :: p[k] < n
    ensures Picked(seq(n, i => i), p) == p
  {
  }

  /** The first two elements of the window lie in the leaf. */
  lemma RepeatMisses(e: Operand, sd: nat, k: nat)
    requires IsPartialDim(e, sd) && e.src.Broadcast? && e.src.src.Leaf?
    requires k < |e.src.places| && e.src.places[k] == sd
    requires forall j | 0 <= j < |Shape(e)| :: Shape(e)[j] > 0
    requires e.strides[sd] > 0 && k < |e.src.src.dims| && sd < |e.src.dims|
    requires StandsFor(e, e.src.src, e.src.places, Some(Window(k, e.starts[sd], e.limits[sd], e.strides[sd])))
    ensures Repeatable(e.src.src.dims[k], e.src.dims[sd], Window(k, e.starts[sd], e.limits[sd], e.strides[sd]))
  {
    var leaf := e.src.src;
    SliceFacts(e, sd);
    var w := Some(Window(k, e.starts[sd], e.limits[sd], e.strides[sd]));
    var n := Shape(e)[sd];
    var first: Index := seq(|Shape(e)|, j => 0);
    var second: Index := first[sd := 1];
    hide Element, Extent;
    assert ReadsWindow(e, leaf, first, e.src.places, w);
    if n > 1 {
      assert InBounds(second, Shape(e));
      assert ReadsWindow(e, leaf, second, e.src.places, w);
    }
  }
}
