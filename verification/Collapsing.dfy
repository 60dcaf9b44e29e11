/** `getCollapsingMapping`: split an old shape into consecutive groups of
    dimensions whose products are the new dimensions. */
module Collapsing {
  import opened RowMajor

  /** Product of the dimensions a, ..., b - 1. */
  function Segment(dims: seq<int>, a: nat, b: nat): int
    requires a <= b <= |dims|
    decreases b
  {
    if a == b then 1 else Segment(dims, a, b - 1) * dims[b - 1]
  }

  function Range(a: nat, b: nat): (s: seq<int>)
    requires a <= b
    ensures |s| == b - a && forall k | 0 <= k < b - a :: s[k] == a + k
  {
    seq(b - a, k => a + k)
  }

  /** Group i of cuts is not empty and has new dimension i as product. */
  ghost predicate GroupAt(old_: seq<int>, new_: seq<int>, cuts: seq<nat>, i: nat)
    requires i + 1 < |cuts| && i < |new_|
  {
    cuts[i] < cuts[i + 1] <= |old_| && Segment(old_, cuts[i], cuts[i + 1]) == new_[i]
  }

  /** cuts splits the old dimensions into consecutive non-empty groups, one for
      each new dimension, with that dimension as product. */
  ghost predicate Collapse(old_: seq<int>, new_: seq<int>, cuts: seq<nat>) {
    && |cuts| == |new_| + 1 && cuts[0] == 0 && cuts[|new_|] == |old_|
    && forall i: nat | i < |new_| :: GroupAt(old_, new_, cuts, i)
  }

  /** The group the greedy scan forms from position a: it never exceeds the
      target, and stops as soon as it reaches it, except that the last group
      goes on through dimensions of extent 1. */
  ghost predicate GreedyGroup(old_: seq<int>, a: nat, b: nat, target: int, last: bool) {
    && a < b <= |old_| && Segment(old_, a, b) == target
    && (forall k | a < k <= b :: Segment(old_, a, k) <= target)
    && (forall k | a < k < b && Segment(old_, a, k) == target :: last && old_[k] == 1)
  }

  ghost predicate GreedyAt(old_: seq<int>, new_: seq<int>, cuts: seq<nat>, i: nat)
    requires i + 1 < |cuts| && i < |new_|
  {
    GreedyGroup(old_, cuts[i], cuts[i + 1], new_[i], i == |new_| - 1)
  }

  ghost predicate GreedyCollapse(old_: seq<int>, new_: seq<int>, cuts: seq<nat>) {
    && |cuts| == |new_| + 1 && cuts[0] == 0 && cuts[|new_|] == |old_|
    && forall i: nat | i < |new_| :: GreedyAt(old_, new_, cuts, i)
  }

  ghost predicate MappedAt(mapping: map<int, seq<int>>, cuts: seq<nat>, i: nat)
    requires i + 1 < |cuts|
  {
    i in mapping && cuts[i] <= cuts[i + 1] && mapping[i] == Range(cuts[i], cuts[i + 1])
  }

  /** The mapping that belongs to cuts: new index to the old indices of its group. */
  ghost predicate MapsTo(mapping: map<int, seq<int>>, cuts: seq<nat>, n: nat) {
    && n < |cuts|
    && (forall i :: i in mapping <==> 0 <= i < n)
    && (forall i: nat | i < n :: MappedAt(mapping, cuts, i))
  }

  // ---------------------------------------------------------------- the scan

  /** The inner loop for one new dimension, starting at old position a. */
  method NextGroup(old_: seq<int>, a: nat, target: int, last: bool) returns (ok: bool, b: nat, group: seq<int>)
    requires a <= |old_|
    ensures ok ==> GreedyGroup(old_, a, b, target, last) && group == Range(a, b)
    ensures ok && last ==> b == |old_| || old_[b] != 1
    ensures !ok ==> forall b': nat :: !GreedyGroup(old_, a, b', target, last)
  {
    var current := 1;
    var consumed := false;
    b, group := a, [];
    while b < |old_|
      invariant a <= b <= |old_| && current == Segment(old_, a, b) && group == Range(a, b)
      invariant consumed <==> a < b
      invariant forall k | a < k <= b :: Segment(old_, a, k) <= target
      invariant forall k | a < k < b && Segment(old_, a, k) == target :: last && old_[k] == 1
    {
      if consumed && current == target {
        if last {
          if old_[b] != 1 {
            break;
          }
        } else {
          break;
        }
      }
      current := current * old_[b];
      group := group + [b];
      consumed := true;
      b := b + 1;
      if current > target {
        ScanFails(old_, a, b, target, last);
        return false, b, group;
      }
    }
    if current != target || !consumed {
      ScanEnds(old_, a, target, last);
      return false, b, group;
    }
    return true, b, group;
  }

  /** Going over the target before stopping rules out every greedy group. */
  lemma ScanFails(old_: seq<int>, a: nat, b: nat, target: int, last: bool)
    requires a < b <= |old_| && Segment(old_, a, b) > target
    requires forall k | a < k < b && Segment(old_, a, k) == target :: last && old_[k] == 1
    ensures forall b': nat :: !GreedyGroup(old_, a, b', target, last)
  {
    forall b': nat ensures !GreedyGroup(old_, a, b', target, last) {
      NotGreedy(old_, a, b, b', target, last);
    }
  }

  lemma NotGreedy(old_: seq<int>, a: nat, b: nat, b': nat, target: int, last: bool)
    requires a < b <= |old_| && Segment(old_, a, b) > target
    requires forall k | a < k < b && Segment(old_, a, k) == target :: last && old_[k] == 1
    ensures !GreedyGroup(old_, a, b', target, last)
  {
    hide Segment;
    if a < b' < b && Segment(old_, a, b') == target { OnesAfter(old_, a, b', b, target); }
  }

  /** Where the scan goes on after reaching the target, the product stays the target. */
  lemma {:induction false} OnesAfter(old_: seq<int>, a: nat, b': nat, b: nat, target: int)
    requires a < b' <= b <= |old_| && Segment(old_, a, b') == target
    requires forall k | a < k < b && Segment(old_, a, k) == target :: old_[k] == 1
    ensures Segment(old_, a, b) == target
    decreases b
  {
    if b' < b {
      OnesAfter(old_, a, b', b - 1, target);
      assert old_[b - 1] == 1;
    }
  }

  lemma ScanEnds(old_: seq<int>, a: nat, target: int, last: bool)
    requires a <= |old_|
    requires a == |old_| || Segment(old_, a, |old_|) != target
    requires forall k | a < k < |old_| && Segment(old_, a, k) == target :: last && old_[k] == 1
    ensures forall b': nat :: !GreedyGroup(old_, a, b', target, last)
  {
    forall b': nat ensures !GreedyGroup(old_, a, b', target, last) {
      if a < b' <= |old_| && Segment(old_, a, b') == target { OnesAfter(old_, a, b', |old_|, target); }
    }
  }

  /** Greedy groups from the same position are the same, up to ones after the last group. */
  lemma GreedyGroupUnique(old_: seq<int>, a: nat, b: nat, b': nat, target: int, last: bool)
    requires GreedyGroup(old_, a, b, target, last) && GreedyGroup(old_, a, b', target, last)
    ensures !last ==> b == b'
    ensures last && b' == |old_| && (b == |old_| || old_[b] != 1) ==> b == b'
  {
  }

  /** `getCollapsingMapping`: with at least one new dimension and fewer than old
      ones, the answer is yes exactly when a greedy collapse exists, and the
      mapping is that collapse. */
  method GetCollapsingMapping(oldShape: seq<int>, newShape: seq<int>)
    returns (b: bool, mapping: map<int, seq<int>>, ghost cuts: seq<nat>)
    ensures |newShape| >= |oldShape| ==> !b
    ensures newShape == [] && oldShape != [] ==> (b <==> Product(oldShape) == 1)
    ensures 0 < |newShape| < |oldShape| ==>
      (b <==> exists c :: GreedyCollapse(oldShape, newShape, c))
    ensures b && newShape != [] ==> GreedyCollapse(oldShape, newShape, cuts) && MapsTo(mapping, cuts, |newShape|)
  {
    mapping, cuts := map[], [0];
    if |newShape| >= |oldShape| {
      return false, mapping, cuts;
    }
    if newShape == [] {
      var p := ProductOf(oldShape);
      return p == 1, mapping, cuts;
    }
    var oldIdx: nat := 0;
    for newIdx := 0 to |newShape|
      invariant Scanned(oldShape, newShape, cuts, newIdx) && cuts[newIdx] == oldIdx
      invariant newIdx == |newShape| ==> oldIdx == |oldShape| || oldShape[oldIdx] != 1
      invariant MapsTo(mapping, cuts, newIdx)
    {
      var last := newIdx == |newShape| - 1;
      var ok, next, group := NextGroup(oldShape, oldIdx, newShape[newIdx], last);
      if !ok {
        NoGroup(oldShape, newShape, cuts, newIdx, last);
        return false, mapping, cuts;
      }
      ScanStep(oldShape, newShape, cuts, newIdx, next);
      MapStep(mapping, cuts, newIdx, group, next);
      mapping := mapping[newIdx := group];
      cuts := cuts + [next];
      oldIdx := next;
    }
    ScanDone(oldShape, newShape, cuts);
    return oldIdx == |oldShape|, mapping, cuts;
  }

  /** The first n groups are greedy, and every greedy collapse starts with the same cuts. */
  ghost predicate Scanned(old_: seq<int>, new_: seq<int>, cuts: seq<nat>, n: nat) {
    && n <= |new_| && |cuts| == n + 1 && cuts[0] == 0 && cuts[n] <= |old_|
    && (forall i: nat | i < n :: GreedyAt(old_, new_, cuts, i))
    && (forall c | GreedyCollapse(old_, new_, c) :: SameStart(c, cuts, n, |new_|))
  }

  /** c and cuts agree up to position n, the end point aside. */
  ghost predicate SameStart(c: seq<nat>, cuts: seq<nat>, n: nat, m: nat)
    requires n < |cuts| && |c| == m + 1
  {
    forall i: nat | i <= n && i < m :: c[i] == cuts[i]
  }

  lemma NoGroup(old_: seq<int>, new_: seq<int>, cuts: seq<nat>, n: nat, last: bool)
    requires Scanned(old_, new_, cuts, n) && n < |new_| && last == (n == |new_| - 1)
    requires forall b': nat :: !GreedyGroup(old_, cuts[n], b', new_[n], last)
    ensures forall c :: !GreedyCollapse(old_, new_, c)
  {
    forall c ensures !GreedyCollapse(old_, new_, c) {
      assert GreedyCollapse(old_, new_, c) ==> GreedyAt(old_, new_, c, n) && SameStart(c, cuts, n, |new_|);
    }
  }

  lemma ScanStep(old_: seq<int>, new_: seq<int>, cuts: seq<nat>, n: nat, next: nat)
    requires Scanned(old_, new_, cuts, n) && n < |new_|
    requires GreedyGroup(old_, cuts[n], next, new_[n], n == |new_| - 1)
    ensures Scanned(old_, new_, cuts + [next], n + 1)
  {
    var cuts' := cuts + [next];
    forall i: nat | i < n + 1 ensures GreedyAt(old_, new_, cuts', i) {
      assert i < n ==> GreedyAt(old_, new_, cuts, i);
    }
    forall c | GreedyCollapse(old_, new_, c) ensures SameStart(c, cuts', n + 1, |new_|) {
      assert SameStart(c, cuts, n, |new_|);
      if n + 1 < |new_| {
        assert GreedyAt(old_, new_, c, n);
        assert c[n] == cuts[n];
        GreedyGroupUnique(old_, cuts[n], next, c[n + 1], new_[n], false);
      }
    }
  }

  lemma MapStep(mapping: map<int, seq<int>>, cuts: seq<nat>, n: nat, group: seq<int>, next: nat)
    requires MapsTo(mapping, cuts, n) && |cuts| == n + 1 && cuts[n] <= next && group == Range(cuts[n], next)
    ensures MapsTo(mapping[n := group], cuts + [next], n + 1)
  {
    var mapping', cuts' := mapping[n := group], cuts + [next];
    forall i: nat | i < n + 1 ensures MappedAt(mapping', cuts', i) {
      assert i < n ==> MappedAt(mapping, cuts, i);
    }
  }

  /** After all groups: either everything is covered, or no greedy collapse exists. */
  lemma ScanDone(old_: seq<int>, new_: seq<int>, cuts: seq<nat>)
    requires |new_| > 0 && Scanned(old_, new_, cuts, |new_|)
    requires cuts[|new_|] == |old_| || old_[cuts[|new_|]] != 1
    ensures cuts[|new_|] == |old_| ==> GreedyCollapse(old_, new_, cuts)
    ensures cuts[|new_|] != |old_| ==> forall c :: !GreedyCollapse(old_, new_, c)
  {
    var n := |new_| - 1;
    assert GreedyAt(old_, new_, cuts, n);
    forall c | cuts[|new_|] != |old_| ensures !GreedyCollapse(old_, new_, c) {
      assert GreedyCollapse(old_, new_, c) ==> GreedyAt(old_, new_, c, n) && SameStart(c, cuts, n + 1, |new_|);
      if GreedyCollapse(old_, new_, c) {
        GreedyGroupUnique(old_, cuts[n], cuts[n + 1], c[n + 1], new_[n], true);
      }
    }
  }

  // ---------------------------------------------------------------- the greedy choice misses nothing

  lemma {:induction false} SegmentSplit(dims: seq<int>, a: nat, m: nat, b: nat)
    requires a <= m <= b <= |dims|
    ensures Segment(dims, a, b) == Segment(dims, a, m) * Segment(dims, m, b)
    decreases b
  {
    if m < b {
      SegmentSplit(dims, a, m, b - 1);
      assert (Segment(dims, a, m) * Segment(dims, m, b - 1)) * dims[b - 1]
          == Segment(dims, a, m) * (Segment(dims, m, b - 1) * dims[b - 1]);
    }
  }

  ghost predicate PositiveOn(dims: seq<int>, a: nat, b: nat) {
    a <= b <= |dims| && forall k | a <= k < b :: dims[k] >= 1
  }

  lemma {:induction false} SegmentPositive(dims: seq<int>, a: nat, b: nat)
    requires PositiveOn(dims, a, b)
    ensures Segment(dims, a, b) >= 1
    decreases b
  {
    if a < b {
      SegmentPositive(dims, a, b - 1);
      MulMonotone(1, Segment(dims, a, b - 1), dims[b - 1]);
    }
  }

  lemma SegmentGrows(dims: seq<int>, a: nat, m: nat, b: nat)
    requires PositiveOn(dims, a, b) && a <= m <= b
    ensures Segment(dims, a, m) <= Segment(dims, a, b)
  {
    SegmentSplit(dims, a, m, b);
    SegmentPositive(dims, a, m);
    SegmentPositive(dims, m, b);
    MulMonotone(1, Segment(dims, m, b), Segment(dims, a, m));
  }

  /** From a position with only ones before the next cut, the scan finds a group
      that ends at that cut or before, again with only ones in between. */
  lemma GreedyCatchesUp(old_: seq<int>, a: nat, m: nat, b: nat, target: int) returns (e: nat)
    requires PositiveOn(old_, a, b) && a <= m < b
    requires Segment(old_, a, m) == 1 && Segment(old_, m, b) == target
    ensures a < e <= b && GreedyGroup(old_, a, e, target, false) && Segment(old_, e, b) == 1
  {
    SegmentSplit(old_, a, m, b);
    e := a + 1;
    SegmentGrows(old_, a, e, b);
    while Segment(old_, a, e) != target
      invariant a < e <= b
      invariant forall k | a < k < e :: Segment(old_, a, k) != target
      decreases b - e
    {
      e := e + 1;
    }
    forall k | a < k <= e ensures Segment(old_, a, k) <= target { SegmentGrows(old_, a, k, b); }
    SegmentSplit(old_, a, e, b);
    SegmentPositive(old_, e, b);
    SegmentPositive(old_, a, e);
    UnitFactor(target, Segment(old_, e, b));
  }

  lemma UnitFactor(t: int, s: int)
    requires t >= 1 && s >= 1 && t == t * s
    ensures s == 1
  {
    MulMonotone(1, s, t);
    if s > 1 { MulMonotone(2, s, t); }
  }

  /** The last group takes in all the ones that are left. */
  lemma GreedyLast(old_: seq<int>, a: nat, m: nat, target: int)
    requires PositiveOn(old_, a, |old_|) && a <= m < |old_|
    requires Segment(old_, a, m) == 1 && Segment(old_, m, |old_|) == target
    ensures GreedyGroup(old_, a, |old_|, target, true)
  {
    SegmentSplit(old_, a, m, |old_|);
    forall k | a < k <= |old_| ensures Segment(old_, a, k) <= target { SegmentGrows(old_, a, k, |old_|); }
    forall k | a < k < |old_| && Segment(old_, a, k) == target ensures old_[k] == 1 {
      SegmentSplit(old_, a, k, |old_|);
      SegmentPositive(old_, k, |old_|);
      SegmentPositive(old_, a, k);
      UnitFactor(target, Segment(old_, k, |old_|));
      SegmentSplit(old_, k, k + 1, |old_|);
      SegmentPositive(old_, k + 1, |old_|);
      assert Segment(old_, k, k + 1) == Segment(old_, k, k) * old_[k];
      MulMonotone(1, Segment(old_, k + 1, |old_|), old_[k]);
    }
  }

  // ---------------------------------------------------------------- dimensions of size zero

  /** The number of ones directly before position n. */
  function Ones(dims: seq<int>, n: nat): nat
    requires n <= |dims|
  {
    if n == 0 || dims[n - 1] != 1 then 0 else 1 + Ones(dims, n - 1)
  }

  /** A group for size zero starts with its zero and is the zero alone, ones after
      the last one aside, and as many ones stand before it as before its target. */
  ghost predicate ZeroAt(old_: seq<int>, new_: seq<int>, cuts: seq<nat>, i: nat)
    requires i + 1 < |cuts| && i < |new_|
  {
    && cuts[i] < cuts[i + 1] <= |old_| && old_[cuts[i]] == 0
    && (forall k | cuts[i] < k < cuts[i + 1] :: i == |new_| - 1 && old_[k] == 1)
    && Ones(old_, cuts[i]) == Ones(new_, i)
  }

  ghost predicate ZerosAlone(old_: seq<int>, new_: seq<int>, cuts: seq<nat>)
    requires |cuts| == |new_| + 1
  {
    forall i: nat | i < |new_| && new_[i] == 0 :: ZeroAt(old_, new_, cuts, i)
  }

  lemma {:induction false} SegmentZero(dims: seq<int>, a: nat, b: nat)
    requires a < b <= |dims| && dims[a] == 0
    ensures Segment(dims, a, b) == 0
    decreases b
  {
    if a + 1 < b { SegmentZero(dims, a, b - 1); }
  }

  lemma {:induction false} SegmentNonZero(dims: seq<int>, a: nat, b: nat)
    requires a <= b <= |dims| && (forall k | a <= k < b :: dims[k] >= 0) && Segment(dims, a, b) != 0
    ensures PositiveOn(dims, a, b)
    decreases b
  {
    if a < b { SegmentNonZero(dims, a, b - 1); }
  }

  lemma OneDimension(dims: seq<int>, a: nat)
    requires a < |dims|
    ensures Segment(dims, a, a + 1) == dims[a]
  {
    assert Segment(dims, a, a + 1) == Segment(dims, a, a) * dims[a];
  }

  /** The ones between two positions count. */
  lemma {:induction false} OnesThrough(dims: seq<int>, a: nat, b: nat)
    requires PositiveOn(dims, a, b) && Segment(dims, a, b) == 1
    ensures Ones(dims, b) == Ones(dims, a) + (b - a)
    decreases b
  {
    if a < b {
      SegmentPositive(dims, a, b - 1);
      UnitProduct(Segment(dims, a, b - 1), dims[b - 1]);
      OnesThrough(dims, a, b - 1);
    }
  }

  lemma UnitProduct(s: int, t: int)
    requires s >= 1 && t >= 1 && s * t == 1
    ensures s == 1 && t == 1
  {
    MulMonotone(1, s, t);
    MulMonotone(1, t, s);
  }

  /** A greedy group ends in a one only if its target is one. */
  lemma GroupOnes(old_: seq<int>, a: nat, b: nat, target: int)
    requires GreedyGroup(old_, a, b, target, false) && old_[a] >= 0
    ensures Ones(old_, b) == if target == 1 then 1 + Ones(old_, a) else 0
  {
    OneDimension(old_, a);
    if target == 1 {
      GroupOfOne(old_, a, b);
    } else {
      LastOfGroup(old_, a, b, target);
    }
  }

  lemma GroupOfOne(old_: seq<int>, a: nat, b: nat)
    requires GreedyGroup(old_, a, b, 1, false) && 0 <= old_[a]
    ensures b == a + 1 && old_[a] == 1
  {
    OneDimension(old_, a);
    if old_[a] == 0 { SegmentZero(old_, a, b); }
  }

  lemma LastOfGroup(old_: seq<int>, a: nat, b: nat, target: int)
    requires GreedyGroup(old_, a, b, target, false) && target != 1
    ensures old_[b - 1] != 1
  {
    assert Segment(old_, a, b) == Segment(old_, a, b - 1) * old_[b - 1];
  }

  ghost predicate GreedyPrefix(old_: seq<int>, new_: seq<int>, g: seq<nat>, n: nat) {
    && n < |new_| && |g| > n && g[0] == 0
    && forall i: nat | i < n :: GreedyGroup(old_, g[i], g[i + 1], new_[i], false)
  }

  lemma {:induction false} PrefixOnes(old_: seq<int>, new_: seq<int>, g: seq<nat>, n: nat)
    requires GreedyPrefix(old_, new_, g, n) && forall k | 0 <= k < |old_| :: old_[k] >= 0
    ensures g[n] <= |old_| && Ones(old_, g[n]) == Ones(new_, n)
  {
    if n > 0 {
      PrefixOnes(old_, new_, g, n - 1);
      assert GreedyGroup(old_, g[n - 1], g[n], new_[n - 1], false);
      GroupOnes(old_, g[n - 1], g[n], new_[n - 1]);
    }
  }

  /** A greedy collapse is one in which the zeros stand alone. */
  lemma GreedyZerosAlone(old_: seq<int>, new_: seq<int>, c: seq<nat>)
    requires GreedyCollapse(old_, new_, c) && forall k | 0 <= k < |old_| :: old_[k] >= 0
    ensures Collapse(old_, new_, c) && ZerosAlone(old_, new_, c)
  {
    GreedyIsCollapse(old_, new_, c);
    forall i: nat | i < |new_| && new_[i] == 0 ensures ZeroAt(old_, new_, c, i) {
      assert GreedyAt(old_, new_, c, i);
      forall j: nat | j < i ensures GreedyGroup(old_, c[j], c[j + 1], new_[j], false) {
        assert GreedyAt(old_, new_, c, j);
      }
      PrefixOnes(old_, new_, c, i);
      OneDimension(old_, c[i]);
      forall k | c[i] < k < c[i + 1] ensures i == |new_| - 1 && old_[k] == 1 {
        SegmentZero(old_, c[i], k);
      }
    }
  }

  /** Where the zeros stand alone the scan arrives exactly at each of them. */
  lemma ZeroReached(old_: seq<int>, new_: seq<int>, cuts: seq<nat>, g: seq<nat>, n: nat)
    requires (forall k | 0 <= k < |old_| :: old_[k] >= 0) && Collapse(old_, new_, cuts) && ZerosAlone(old_, new_, cuts)
    requires GreedyPrefix(old_, new_, g, n) && new_[n] == 0
    requires g[n] <= cuts[n] <= |old_| && PositiveOn(old_, g[n], cuts[n]) && Segment(old_, g[n], cuts[n]) == 1
    ensures g[n] == cuts[n] && GreedyGroup(old_, cuts[n], cuts[n + 1], 0, n == |new_| - 1)
  {
    assert ZeroAt(old_, new_, cuts, n);
    PrefixOnes(old_, new_, g, n);
    OnesThrough(old_, g[n], cuts[n]);
    forall k | cuts[n] < k <= cuts[n + 1] ensures Segment(old_, cuts[n], k) == 0 { SegmentZero(old_, cuts[n], k); }
  }

  /** From the ones before a group with a target other than zero all is positive. */
  lemma GroupPositive(old_: seq<int>, new_: seq<int>, cuts: seq<nat>, a: nat, n: nat)
    requires (forall k | 0 <= k < |old_| :: old_[k] >= 0) && Collapse(old_, new_, cuts) && n < |new_| && new_[n] != 0
    requires a <= cuts[n] <= |old_| && PositiveOn(old_, a, cuts[n])
    ensures cuts[n] < cuts[n + 1] <= |old_| && PositiveOn(old_, a, cuts[n + 1])
    ensures Segment(old_, cuts[n], cuts[n + 1]) == new_[n]
  {
    assert GroupAt(old_, new_, cuts, n);
    SegmentNonZero(old_, cuts[n], cuts[n + 1]);
  }

  // ---------------------------------------------------------------- when the greedy choice misses nothing

  /** The greedy cuts that follow a given collapse, group by group. */
  lemma {:induction false} GreedyFrom(old_: seq<int>, new_: seq<int>, cuts: seq<nat>, n: nat) returns (g: seq<nat>)
    requires (forall k | 0 <= k < |old_| :: old_[k] >= 0) && n < |new_|
    requires Collapse(old_, new_, cuts) && ZerosAlone(old_, new_, cuts)
    ensures |g| == n + 1 && GreedyPrefix(old_, new_, g, n)
    ensures g[n] <= cuts[n] <= |old_| && PositiveOn(old_, g[n], cuts[n]) && Segment(old_, g[n], cuts[n]) == 1
  {
    if n == 0 {
      g := [0];
    } else {
      g := GreedyFrom(old_, new_, cuts, n - 1);
      assert GroupAt(old_, new_, cuts, n - 1);
      var e: nat := cuts[n];
      if new_[n - 1] == 0 {
        ZeroReached(old_, new_, cuts, g, n - 1);
      } else {
        GroupPositive(old_, new_, cuts, g[n - 1], n - 1);
        e := GreedyCatchesUp(old_, g[n - 1], cuts[n - 1], cuts[n], new_[n - 1]);
      }
      assert GreedyGroup(old_, g[n - 1], e, new_[n - 1], false);
      PrefixNext(old_, new_, g, e, n - 1);
      g := g + [e];
    }
  }

  lemma PrefixNext(old_: seq<int>, new_: seq<int>, g: seq<nat>, e: nat, n: nat)
    requires GreedyPrefix(old_, new_, g, n) && |g| == n + 1 && n + 1 < |new_|
    requires GreedyGroup(old_, g[n], e, new_[n], false)
    ensures GreedyPrefix(old_, new_, g + [e], n + 1)
  {
    hide GreedyGroup;
    var h := g + [e];
    forall i: nat | i < n + 1 ensures GreedyGroup(old_, h[i], h[i + 1], new_[i], false) {
      assert i < n ==> GreedyGroup(old_, g[i], g[i + 1], new_[i], false);
    }
  }

  /** The greedy scan finds a collapse exactly when there is one in which the groups
      for size zero are zeros alone. */
  lemma GreedyExactly(old_: seq<int>, new_: seq<int>)
    requires (forall k | 0 <= k < |old_| :: old_[k] >= 0) && 0 < |new_|
    ensures (exists c :: GreedyCollapse(old_, new_, c))
       <==> exists c :: Collapse(old_, new_, c) && ZerosAlone(old_, new_, c)
  {
    if cuts :| Collapse(old_, new_, cuts) && ZerosAlone(old_, new_, cuts) {
      GreedyFollows(old_, new_, cuts);
    }
    if c :| GreedyCollapse(old_, new_, c) { GreedyZerosAlone(old_, new_, c); }
  }

  lemma GreedyFollows(old_: seq<int>, new_: seq<int>, cuts: seq<nat>)
    requires (forall k | 0 <= k < |old_| :: old_[k] >= 0) && 0 < |new_|
    requires Collapse(old_, new_, cuts) && ZerosAlone(old_, new_, cuts)
    ensures exists c :: GreedyCollapse(old_, new_, c)
  {
    hide Segment, PositiveOn, ZerosAlone;
    var n := |new_| - 1;
    var g := GreedyFrom(old_, new_, cuts, n);
    assert GroupAt(old_, new_, cuts, n);
    if new_[n] == 0 {
      ZeroReached(old_, new_, cuts, g, n);
    } else {
      GroupPositive(old_, new_, cuts, g[n], n);
      GreedyLast(old_, g[n], cuts[n], new_[n]);
    }
    hide GreedyGroup;
    var c := g + [|old_|];
    forall i: nat | i < |new_| ensures GreedyAt(old_, new_, c, i) {
      assert i < n ==> GreedyGroup(old_, g[i], g[i + 1], new_[i], false);
    }
    assert GreedyCollapse(old_, new_, c);
  }

  /** For positive dimensions a collapse exists exactly when a greedy one does. */
  lemma GreedySuffices(old_: seq<int>, new_: seq<int>)
    requires Positive(old_) && 0 < |new_|
    ensures (exists c :: Collapse(old_, new_, c)) <==> exists c :: GreedyCollapse(old_, new_, c)
  {
    GreedyExactly(old_, new_);
    if cuts :| Collapse(old_, new_, cuts) {
      forall i: nat | i < |new_| ensures new_[i] != 0 {
        assert GroupAt(old_, new_, cuts, i);
        SegmentPositive(old_, cuts[i], cuts[i + 1]);
      }
      assert ZerosAlone(old_, new_, cuts);
    }
    if c :| GreedyCollapse(old_, new_, c) { GreedyIsCollapse(old_, new_, c); }
  }

  lemma GreedyIsCollapse(old_: seq<int>, new_: seq<int>, c: seq<nat>)
    requires GreedyCollapse(old_, new_, c)
    ensures Collapse(old_, new_, c)
  {
    forall i: nat | i < |new_| ensures GroupAt(old_, new_, c, i) { assert GreedyAt(old_, new_, c, i); }
  }

  /** With an extent of zero the two differ: 0 x 2 collapses to 0, but the scan
      stops after the first dimension, where the target is already reached. */
  lemma ZeroExtentMissed()
    ensures Collapse([0, 2], [0], [0, 2])
    ensures forall c :: !GreedyCollapse([0, 2], [0], c)
  {
    assert Segment([0, 2], 0, 1) == Segment([0, 2], 0, 0) * 0;
    assert Segment([0, 2], 0, 2) == Segment([0, 2], 0, 1) * 2;
    assert GroupAt([0, 2], [0], [0, 2], 0);
    assert !GreedyGroup([0, 2], 0, 2, 0, true);
    forall c ensures !GreedyCollapse([0, 2], [0], c) { FirstGroup([0, 2], [0], c); }
  }

  lemma FirstGroup(old_: seq<int>, new_: seq<int>, c: seq<nat>)
    ensures GreedyCollapse(old_, new_, c) && |new_| == 1 ==> GreedyGroup(old_, 0, |old_|, new_[0], true)
  {
    assert GreedyCollapse(old_, new_, c) && |new_| == 1 ==> GreedyAt(old_, new_, c, 0);
  }
}
