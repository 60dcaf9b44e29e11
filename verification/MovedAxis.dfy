/** Moving an axis past others and inserting dimensions of size one: what this does
    to row-major positions. */
module MovedAxis {
  import opened RowMajor
  import opened ReshapeLike
  import opened AxisFold

  /** x put at place d. */
  function Insert(s: seq<int>, d: nat, x: int): (r: seq<int>)
    requires d <= |s|
    ensures |r| == |s| + 1 && r[d] == x
  {
    s[..d] + [x] + s[d..]
  }

  /** The entry at place d dropped. */
  function Remove(s: seq<int>, d: nat): (r: seq<int>)
    requires d < |s|
    ensures |r| == |s| - 1
  {
    s[..d] + s[d + 1..]
  }

  lemma InsertRemove(s: seq<int>, d: nat, x: int)
    requires d < |s|
    ensures Insert(Remove(s, d), d, x) == s[d := x]
  {
  }

  lemma RemoveInsert(s: seq<int>, d: nat, x: int)
    requires d <= |s|
    ensures Remove(Insert(s, d, x), d) == s
  {
  }

  // ---------------------------------------------------------------- inserted dimensions of size one

  /** output is input with dimensions of size one inserted. */
  ghost predicate Inserted(input: seq<int>, output: seq<int>) {
    if output == [] then input == []
    else
      || (input != [] && input[0] == output[0] && Inserted(input[1..], output[1..]))
      || (output[0] == 1 && Inserted(input, output[1..]))
  }

  lemma {:induction false} DropUnit(input: seq<int>, output: seq<int>)
    requires input != [] && input[0] == 1 && Inserted(input, output)
    ensures Inserted(input[1..], output)
    decreases |output|
  {
    if !(input[0] == output[0] && Inserted(input[1..], output[1..])) { DropUnit(input, output[1..]); }
  }

  /** Matching equal sizes first is never wrong. */
  lemma MatchFirst(input: seq<int>, output: seq<int>)
    requires input != [] && output != [] && input[0] == output[0]
    ensures Inserted(input, output) <==> Inserted(input[1..], output[1..])
  {
    if Inserted(input, output) && output[0] == 1 && Inserted(input, output[1..]) { DropUnit(input, output[1..]); }
  }

  lemma {:induction false} InsertedNonUnit(input: seq<int>, output: seq<int>)
    requires Inserted(input, output)
    ensures NonUnit(input) == NonUnit(output)
    decreases |output|
  {
    if output != [] {
      if input != [] && input[0] == output[0] && Inserted(input[1..], output[1..]) {
        InsertedNonUnit(input[1..], output[1..]);
      } else {
        InsertedNonUnit(input, output[1..]);
        NothingAppend(NonUnit(output[1..]));
      }
    }
  }

  /** The sizes at the places that are not listed. */
  function Deleted(s: seq<int>, dims: seq<nat>): (r: seq<int>) {
    if s == [] then []
    else
      var n := |s| - 1;
      Deleted(s[..n], dims) + if n in dims then [] else [s[n]]
  }

  lemma {:induction false} DeletedBelow(s: seq<int>, dims: seq<nat>, i: nat)
    requires |s| <= i
    ensures Deleted(s, dims + [i]) == Deleted(s, dims)
    decreases |s|
  {
    if s != [] { DeletedBelow(s[..|s| - 1], dims, i); }
  }

  lemma DeletedNext(s: seq<int>, dims: seq<nat>, i: nat)
    requires i < |s| && forall k | 0 <= k < |dims| :: dims[k] < i
    ensures Deleted(s[..i + 1], dims) == Deleted(s[..i], dims) + [s[i]]
    ensures Deleted(s[..i + 1], dims + [i]) == Deleted(s[..i], dims)
  {
    assert s[..i + 1][..i] == s[..i];
    DeletedBelow(s[..i], dims, i);
    assert i in dims + [i];
  }

  lemma Suffixes(s: seq<int>, i: nat)
    requires i < |s|
    ensures s[i..] != [] && s[i..][0] == s[i] && s[i..][1..] == s[i + 1..]
  {
  }

  /** `findReshapeInsertionDims`: the places of the inserted dimensions, if there are
      some and nothing else has changed. */
  method FindReshapeInsertionDims(inputShape: seq<int>, outputShape: seq<int>) returns (dims: seq<nat>)
    ensures dims != [] <==> |inputShape| < |outputShape| && Inserted(inputShape, outputShape)
    ensures dims != [] ==> |dims| == |outputShape| - |inputShape| && Deleted(outputShape, dims) == inputShape
    ensures forall k | 0 <= k < |dims| :: dims[k] < |outputShape| && outputShape[dims[k]] == 1
  {
    hide Inserted, Deleted;
    dims := [];
    if |inputShape| >= |outputShape| {
      return;
    }
    var next := 0;
    assert inputShape[0..] == inputShape && outputShape[0..] == outputShape;
    StartDeleted(inputShape, outputShape);
    for i := 0 to |outputShape|
      invariant next <= |inputShape| && |dims| == i - next
      invariant Inserted(inputShape, outputShape) <==> Inserted(inputShape[next..], outputShape[i..])
      invariant Deleted(outputShape[..i], dims) == inputShape[..next]
      invariant forall k | 0 <= k < |dims| :: dims[k] < i && outputShape[dims[k]] == 1
    {
      var dim := outputShape[i];
      Suffixes(outputShape, i);
      DeletedNext(outputShape, dims, i);
      if next < |inputShape| && dim == inputShape[next] {
        Suffixes(inputShape, next);
        MatchFirst(inputShape[next..], outputShape[i..]);
        assert inputShape[..next + 1] == inputShape[..next] + [inputShape[next]];
        next := next + 1;
      } else if dim == 1 && (next >= |inputShape| || dim != inputShape[next]) {
        SkipUnit(inputShape[next..], outputShape[i..]);
        dims := dims + [i];
      } else {
        NoMatch(inputShape[next..], outputShape[i..]);
        return [];
      }
    }
    NothingLeft(inputShape[next..]);
    assert outputShape[|outputShape|..] == [];
    if next != |inputShape| {
      return [];
    }
    assert inputShape[..|inputShape|] == inputShape && outputShape[..|outputShape|] == outputShape;
  }

  lemma StartDeleted(input: seq<int>, output: seq<int>)
    ensures Deleted(output[..0], []) == input[..0]
  {
  }

  lemma SkipUnit(input: seq<int>, output: seq<int>)
    requires output != [] && output[0] == 1 && (input == [] || input[0] != 1)
    ensures Inserted(input, output) <==> Inserted(input, output[1..])
  {
  }

  lemma NoMatch(input: seq<int>, output: seq<int>)
    requires output != [] && output[0] != 1 && (input == [] || input[0] != output[0])
    ensures !Inserted(input, output)
  {
  }

  lemma NothingLeft(input: seq<int>)
    ensures Inserted(input, []) <==> input == []
  {
  }

  // ---------------------------------------------------------------- the permutation

  /** The transpose moves dimension `from` to place `to` and keeps the order of the others. */
  ghost predicate MovesAxis(perm: seq<nat>, n: nat, from: nat, to: nat) {
    && from < n && to < n && |perm| == n && perm[to] == from
    && (forall i | 0 <= i < to :: perm[i] == if i < from then i else i + 1)
    && (forall i | to < i < n :: perm[i] == if i - 1 < from then i - 1 else i)
  }

  /** Where a dimension goes. */
  function Target(from: nat, to: nat, i: nat): nat {
    if i == from then to
    else if from > to then (if to <= i < from then i + 1 else i)
    else (if from < i <= to then i - 1 else i)
  }

  /** The loops that fill `mapping` and its inverse `permutation`. */
  method AxisPermutation(n: nat, from: nat, to: nat) returns (permutation: seq<nat>)
    requires from < n && to < n
    ensures MovesAxis(permutation, n, from, to)
  {
    var mapping: seq<nat> := seq(n, i => i);
    mapping := mapping[from := to];
    if from > to {
      for i := to to from
        invariant |mapping| == n
        invariant forall k | 0 <= k < n ::
          mapping[k] == if k == from then to else if to <= k < i then k + 1 else k
      {
        mapping := mapping[i := mapping[i] + 1];
      }
    } else {
      for i := from + 1 to to + 1
        invariant |mapping| == n
        invariant forall k | 0 <= k < n ::
          mapping[k] == if k == from then to else if from < k < i then k - 1 else k
      {
        mapping := mapping[i := mapping[i] - 1];
      }
    }
    assert forall k | 0 <= k < n :: mapping[k] == Target(from, to, k) < n;
    permutation := seq(n, _ => 0);
    for i := 0 to n
      invariant |permutation| == n
      invariant forall k | 0 <= k < i :: permutation[Target(from, to, k)] == k
    {
      permutation := permutation[mapping[i] := i];
    }
    forall i: nat | i < n ensures permutation[i] == (if i == to then from else if i < to then (if i < from then i else i + 1) else if i - 1 < from then i - 1 else i) {
      var k: nat := if i == to then from else if i < to then (if i < from then i else i + 1) else if i - 1 < from then i - 1 else i;
      assert Target(from, to, k) == i;
    }
  }

  lemma MovesIsPermutation(perm: seq<nat>, n: nat, from: nat, to: nat)
    requires MovesAxis(perm, n, from, to)
    ensures IsPermutation(perm, n)
  {
    forall d: nat | d < n ensures d in perm {
      var i := Target(from, to, d);
      assert i < n && perm[i] == d;
    }
  }

  lemma MovesInserted(s: seq<int>, x: int, perm: seq<nat>, from: nat, to: nat)
    requires MovesAxis(perm, |s| + 1, from, to)
    ensures IsPermutation(perm, |s| + 1) && Permuted(Insert(s, from, x), perm) == Insert(s, to, x)
  {
    MovesIsPermutation(perm, |s| + 1, from, to);
    var p, r := Permuted(Insert(s, from, x), perm), Insert(s, to, x);
    forall i | 0 <= i < |p| ensures p[i] == r[i] {
    }
  }

  // ---------------------------------------------------------------- sizes other than one around a place

  lemma {:induction false} NonUnitConcat(a: seq<int>, i: Index, b: seq<int>, j: Index)
    requires |i| == |a| && |j| == |b|
    ensures NonUnit(a + b) == NonUnit(a) + NonUnit(b) && Kept(a + b, i + j) == Kept(a, i) + Kept(b, j)
    decreases |b|
  {
    if b == [] {
      assert a + b == a && i + j == i;
    } else {
      var n := |b| - 1;
      var b', j' := b[..n], j[..n];
      NonUnitConcat(a, i, b', j');
      assert b == b' + [b[n]] && j == j' + [j[n]];
      assert a + b == (a + b') + [b[n]] && i + j == (i + j') + [j[n]];
      NonUnitAppend(b', b[n], j', j[n]);
      NonUnitAppend(a + b', b[n], i + j', j[n]);
    }
  }

  /** A size other than one inserted at place d. */
  lemma KeptInsert(s: seq<int>, i: Index, d: nat, k: int, j: int)
    requires |i| == |s| && d <= |s| && k != 1
    ensures NonUnit(Insert(s, d, k)) == NonUnit(s[..d]) + [k] + NonUnit(s[d..])
    ensures Kept(Insert(s, d, k), Insert(i, d, j)) == Kept(s[..d], i[..d]) + [j] + Kept(s[d..], i[d..])
  {
    NonUnitConcat(s[..d] + [k], i[..d] + [j], s[d..], i[d..]);
    NonUnitAppend(s[..d], k, i[..d], j);
  }

  lemma KeptSplit(s: seq<int>, i: Index, d: nat)
    requires |i| == |s| && d <= |s|
    ensures NonUnit(s) == NonUnit(s[..d]) + NonUnit(s[d..])
    ensures Kept(s, i) == Kept(s[..d], i[..d]) + Kept(s[d..], i[d..])
  {
    hide NonUnit, Kept;
    NonUnitConcat(s[..d], i[..d], s[d..], i[d..]);
    assert s == s[..d] + s[d..] && i == i[..d] + i[d..];
  }

  /** A size of one inserted at place d. */
  lemma KeptInsertUnit(s: seq<int>, i: Index, d: nat)
    requires |i| == |s| && d <= |s|
    ensures NonUnit(Insert(s, d, 1)) == NonUnit(s) && Kept(Insert(s, d, 1), Insert(i, d, 0)) == Kept(s, i)
  {
    NonUnitConcat(s[..d] + [1], i[..d] + [0], s[d..], i[d..]);
    NonUnitAppend(s[..d], 1, i[..d], 0);
    KeptSplit(s, i, d);
    AppendNothing(NonUnit(s[..d]));
    AppendNothing(Kept(s[..d], i[..d]));
  }

  lemma InsertBounds(i: Index, s: seq<int>, d: nat, j: int, k: int)
    requires InBounds(i, s) && d <= |s| && 0 <= j < k
    ensures InBounds(Insert(i, d, j), Insert(s, d, k))
  {
  }

  lemma InsertPositive(s: seq<int>, d: nat, k: int)
    requires Positive(s) && d <= |s| && k > 0
    ensures Positive(Insert(s, d, k))
  {
  }

  // ---------------------------------------------------------------- where the axis stands

  /** The axis stands behind as many sizes other than one in both shapes. */
  predicate SamePlace(w: seq<int>, v: seq<int>, to: nat)
    requires to <= |w| && to <= |v|
  {
    |NonUnit(w[..to])| == |NonUnit(v[..to])|
  }

  lemma SamePositions(w: seq<int>, iw: Index, v: seq<int>, iv: Index, to: nat, k: int, j: int)
    requires InBounds(iw, w) && InBounds(iv, v) && to <= |w| && to <= |v| && 0 <= j < k && k != 1
    requires NonUnit(w) == NonUnit(v) && Kept(w, iw) == Kept(v, iv) && SamePlace(w, v, to)
    ensures Linear(Insert(iw, to, j), Insert(w, to, k)) == Linear(Insert(iv, to, j), Insert(v, to, k))
  {
    hide Linear, NonUnit, Kept;
    KeptSplit(w, iw, to);
    KeptSplit(v, iv, to);
    Halves(NonUnit(w[..to]), NonUnit(w[to..]), NonUnit(v[..to]), NonUnit(v[to..]));
    Halves(Kept(w[..to], iw[..to]), Kept(w[to..], iw[to..]), Kept(v[..to], iv[..to]), Kept(v[to..], iv[to..]));
    KeptInsert(w, iw, to, k, j);
    KeptInsert(v, iv, to, k, j);
    InsertBounds(iw, w, to, j, k);
    InsertBounds(iv, v, to, j, k);
    LinearKept(Insert(w, to, k), Insert(iw, to, j));
    LinearKept(Insert(v, to, k), Insert(iv, to, j));
  }

  lemma Halves(a: seq<int>, b: seq<int>, c: seq<int>, d: seq<int>)
    requires a + b == c + d && |a| == |c|
    ensures a == c && b == d
  {
    assert a == (a + b)[..|a|] && c == (c + d)[..|c|];
    assert b == (a + b)[|a|..] && d == (c + d)[|c|..];
  }

  /** The index over w that corresponds to an index over v. */
  function Matched(w: seq<int>, kept: Index): (iw: Index)
    requires |kept| == |NonUnit(w)|
    ensures |iw| == |w|
  {
    if w == [] then []
    else if w[0] == 1 then [0] + Matched(w[1..], kept)
    else [kept[0]] + Matched(w[1..], kept[1..])
  }

  lemma MatchedUnit(w: seq<int>, kept: Index, i: Index)
    requires w != [] && w[0] == 1 && |kept| == |NonUnit(w)| && |i| == |w| - 1
    ensures NonUnit(w) == NonUnit(w[1..]) && Matched(w, kept) == [0] + Matched(w[1..], kept)
    ensures Kept(w, [0] + i) == Kept(w[1..], i)
  {
    assert ([0] + i)[1..] == i;
  }

  lemma MatchedNext(w: seq<int>, kept: Index, i: Index)
    requires w != [] && w[0] != 1 && |kept| == |NonUnit(w)| && |i| == |w| - 1
    ensures NonUnit(w) == [w[0]] + NonUnit(w[1..]) && kept != []
    ensures NonUnit(w)[0] == w[0] && NonUnit(w)[1..] == NonUnit(w[1..])
    ensures Matched(w, kept) == [kept[0]] + Matched(w[1..], kept[1..])
    ensures Kept(w, [kept[0]] + i) == [kept[0]] + Kept(w[1..], i)
  {
    assert ([kept[0]] + i)[1..] == i;
  }

  lemma {:induction false} MatchedKept(w: seq<int>, kept: Index)
    requires |kept| == |NonUnit(w)| && InBounds(kept, NonUnit(w))
    ensures InBounds(Matched(w, kept), w) && Kept(w, Matched(w, kept)) == kept
    decreases |w|
  {
    if w != [] {
      hide InBounds, NonUnit, Matched, Kept;
      var t := w[1..];
      if w[0] == 1 {
        MatchedUnit(w, kept, t);
        MatchedKept(t, kept);
        MatchedUnit(w, kept, Matched(t, kept));
        BoundsPut(0, Matched(t, kept), w);
      } else {
        MatchedNext(w, kept, t);
        BoundsRest(kept, NonUnit(w));
        MatchedKept(t, kept[1..]);
        MatchedNext(w, kept, Matched(t, kept[1..]));
        assert kept == [kept[0]] + kept[1..];
        BoundsPut(kept[0], Matched(t, kept[1..]), w);
      }
    }
  }

  lemma BoundsPut(j: int, i: Index, w: seq<int>)
    requires w != [] && 0 <= j < w[0] && InBounds(i, w[1..])
    ensures InBounds([j] + i, w)
  {
  }

  lemma BoundsRest(i: Index, w: seq<int>)
    requires w != [] && InBounds(i, w)
    ensures 0 <= i[0] < w[0] && InBounds(i[1..], w[1..])
  {
  }

  lemma ProductInsert(s: seq<int>, d: nat, k: int)
    requires d <= |s|
    ensures Product(Insert(s, d, k)) == Product(s) * k
  {
    hide Product;
    var h, t := s[..d], s[d..];
    assert s == h + t;
    ProductConcat(h, t);
    ProductAppend(h, k);
    ProductConcat(h + [k], t);
    Reorder(Product(h), k, Product(t), Product(h) * k, Product(h) * Product(t));
  }

  lemma Reorder(a: int, k: int, b: int, ak: int, ab: int)
    requires ak == a * k && ab == a * b
    ensures ak * b == ab * k
  {
    assert (a * k) * b == a * (k * b);
    assert (a * b) * k == a * (b * k);
  }

  /** The first element of the second slice. */
  lemma UnitPositions(w: seq<int>, to: nat, k: int)
    requires to <= |w| && Positive(w) && k >= 2
    ensures InBounds(Insert(Origin(w), to, 1), Insert(w, to, k))
    ensures Linear(Insert(Origin(w), to, 1), Insert(w, to, k)) == Product(NonUnit(w[to..]))
  {
    LinearUnit(Insert(Origin(w), to, 1), Insert(w, to, k), to);
    assert Insert(w, to, k)[to + 1..] == w[to..];
    ProductNonUnit(w[to..]);
  }

  function Origin(s: seq<int>): (z: Index)
    ensures |z| == |s| && forall k | 0 <= k < |s| :: z[k] == 0
  {
    seq(|s|, _ => 0)
  }

  lemma {:induction false} KeptZeros(s: seq<int>)
    ensures forall k | 0 <= k < |Kept(s, Origin(s))| :: Kept(s, Origin(s))[k] == 0
  {
    if s != [] {
      assert Origin(s)[1..] == Origin(s[1..]);
      KeptZeros(s[1..]);
    }
  }

  lemma SameKeptZeros(w: seq<int>, v: seq<int>)
    requires NonUnit(w) == NonUnit(v)
    ensures Kept(w, Origin(w)) == Kept(v, Origin(v))
  {
    KeptZeros(w);
    KeptZeros(v);
  }

  /** Longer tails of sizes of at least two have larger products. */
  lemma TailProducts(q: seq<int>, a: nat, b: nat)
    requires a < b <= |q| && Positive(q) && forall k | 0 <= k < |q| :: q[k] != 1
    ensures Product(q[a..]) > Product(q[b..])
  {
    if b < |q| {
      StrideFalls(q, a, b);
      ProductPositive(q[a + 1..]);
      ProductPositive(q[b..]);
      assert q[a..][1..] == q[a + 1..];
      assert q[b..][1..] == q[b + 1..];
      TailGrows(q, a, b);
    } else {
      ProductPositive(q[a + 1..]);
      assert q[a..][1..] == q[a + 1..] && q[b..] == [];
      MulMonotone(2, q[a], Product(q[a + 1..]));
    }
  }

  lemma {:induction false} TailGrows(q: seq<int>, a: nat, b: nat)
    requires a < b < |q| && Positive(q) && forall k | 0 <= k < |q| :: q[k] != 1
    ensures Product(q[a..]) > Product(q[b..])
    decreases b - a
  {
    ProductPositive(q[a + 1..]);
    assert q[a..][1..] == q[a + 1..];
    MulMonotone(2, q[a], Product(q[a + 1..]));
    if a + 1 < b { TailGrows(q, a + 1, b); }
  }

  lemma {:induction false} NonUnitSizes(s: seq<int>)
    requires Positive(s)
    ensures Positive(NonUnit(s)) && forall k | 0 <= k < |NonUnit(s)| :: NonUnit(s)[k] != 1
  {
    if s != [] {
      assert Positive(s[1..]);
      NonUnitSizes(s[1..]);
    }
  }

  /** At different places the first elements of the second slice lie apart. */
  lemma PlacesApart(w: seq<int>, v: seq<int>, to: nat)
    requires to <= |w| && to <= |v| && Positive(w) && NonUnit(w) == NonUnit(v) && !SamePlace(w, v, to)
    ensures Product(NonUnit(w[to..])) != Product(NonUnit(v[to..]))
  {
    hide Product, NonUnit;
    var q := NonUnit(w);
    NonUnitSizes(w);
    KeptSplit(w, Origin(w), to);
    KeptSplit(v, Origin(v), to);
    var a, b := |NonUnit(w[..to])|, |NonUnit(v[..to])|;
    assert q[a..] == NonUnit(w[to..]) && q[b..] == NonUnit(v[to..]);
    if a < b { TailProducts(q, a, b); } else { TailProducts(q, b, a); }
  }
}
