/** Widths of a set of points in integer directions. Two points of the set form
    a pair when they agree in the given rows; the width along a row is the
    largest difference over the pairs. The dual multipliers of the linear
    program say how the width depends on adding one row to another. */
module Widths {
  import opened LinearAlgebra
  import opened Points
  import opened LatticeBasis

  /** v . x - v . y, for vectors of one length */
  ghost function Gap(v: Row, x: Vec, y: Vec): real {
    if |v| == |x| == |y| then Dot(Lift(v), x, |x|) - Dot(Lift(v), y, |y|) else 0.0
  }

  ghost predicate Pair(S: iset<Vec>, T: seq<Row>, x: Vec, y: Vec, w: nat) {
    && Matrix(T, w) && x in S && y in S && |x| == w && |y| == w
    && forall k | 0 <= k < |T| :: Gap(T[k], x, y) == 0.0
  }

  ghost predicate Reaches(S: iset<Vec>, T: seq<Row>, v: Row, F: real, w: nat) {
    |v| == w && exists x, y :: Pair(S, T, x, y, w) && Gap(v, x, y) >= F
  }

  ghost predicate Bounded(S: iset<Vec>, T: seq<Row>, v: Row, F: real, w: nat) {
    |v| == w && forall x, y | Pair(S, T, x, y, w) :: Gap(v, x, y) <= F
  }

  ghost predicate IsWidth(S: iset<Vec>, T: seq<Row>, v: Row, F: real, w: nat) {
    Reaches(S, T, v, F, w) && Bounded(S, T, v, F, w)
  }

  /** All pairs agree along v. */
  ghost predicate Null(S: iset<Vec>, v: Row, w: nat) {
    Bounded(S, [], v, 0.0, w)
  }

  lemma GapCombined(v: Row, b: Row, c: int, x: Vec, y: Vec)
    requires |v| == |b| == |x| == |y|
    ensures Gap(AddScaled(v, b, c), x, y) == Gap(v, x, y) + (c as real) * Gap(b, x, y)
  {
    hide Dot;
    var r := AddScaled(v, b, c);
    forall k | 0 <= k < |v| ensures Lift(r)[k] == Lift(v)[k] + (c as real) * Lift(b)[k] {
      MulReal(c, b[k]);
    }
    DotLinear(Lift(r), Lift(v), c as real, Lift(b), x, |x|);
    DotLinear(Lift(r), Lift(v), c as real, Lift(b), y, |y|);
    Spread(c as real, Dot(Lift(b), x, |x|), Dot(Lift(b), y, |y|));
  }

  lemma Spread(c: real, a: real, b: real)
    ensures c * a - c * b == c * (a - b)
  {
  }

  lemma GapSwapped(v: Row, x: Vec, y: Vec)
    requires |v| == |x| == |y|
    ensures Gap(v, y, x) == -Gap(v, x, y)
  {
  }

  lemma PairSwapped(S: iset<Vec>, T: seq<Row>, x: Vec, y: Vec, w: nat)
    requires Pair(S, T, x, y, w)
    ensures Pair(S, T, y, x, w)
  {
    forall k | 0 <= k < |T| ensures Gap(T[k], y, x) == 0.0 { GapSwapped(T[k], x, y); }
  }

  lemma PairExtended(S: iset<Vec>, T: seq<Row>, b: Row, x: Vec, y: Vec, w: nat)
    requires |b| == w
    ensures Pair(S, T + [b], x, y, w) <==> Pair(S, T, x, y, w) && Gap(b, x, y) == 0.0
  {
    hide Gap;
    var U := T + [b];
    if Pair(S, U, x, y, w) {
      assert U[|T|] == b;
      forall k | 0 <= k < |T| ensures |T[k]| == w && Gap(T[k], x, y) == 0.0 { assert U[k] == T[k]; }
    }
  }

  lemma PairFree(S: iset<Vec>, T: seq<Row>, x: Vec, y: Vec, w: nat)
    requires Pair(S, T, x, y, w)
    ensures Pair(S, [], x, y, w)
  {
  }

  lemma WidthNonNegative(S: iset<Vec>, T: seq<Row>, v: Row, F: real, w: nat)
    requires IsWidth(S, T, v, F, w)
    ensures F >= 0.0
  {
    hide Gap;
    var x, y :| Pair(S, T, x, y, w) && Gap(v, x, y) >= F;
    PairSwapped(S, T, x, y, w);
    GapSwapped(v, x, y);
  }

  // ---------------------------------------------------------------- rows that are null

  lemma NullGap(S: iset<Vec>, v: Row, x: Vec, y: Vec, w: nat)
    requires Null(S, v, w) && Pair(S, [], x, y, w)
    ensures Gap(v, x, y) == 0.0
  {
    hide Gap;
    PairSwapped(S, [], x, y, w);
    GapSwapped(v, x, y);
  }

  /** A width of zero over all pairs. */
  lemma ZeroWidthNull(S: iset<Vec>, v: Row, w: nat)
    requires IsWidth(S, [], v, 0.0, w)
    ensures Null(S, v, w)
  {
  }

  ghost predicate AllNull(S: iset<Vec>, T: seq<Row>, w: nat) {
    forall k | 0 <= k < |T| :: Null(S, T[k], w)
  }

  /** Null rows do not restrict the pairs. */
  lemma PairWithNull(S: iset<Vec>, N: seq<Row>, T: seq<Row>, x: Vec, y: Vec, w: nat)
    requires AllNull(S, N, w)
    ensures Pair(S, N + T, x, y, w) <==> Pair(S, T, x, y, w)
  {
    hide Gap, Bounded;
    var U := N + T;
    if Pair(S, U, x, y, w) {
      forall k | 0 <= k < |T| ensures |T[k]| == w && Gap(T[k], x, y) == 0.0 { assert U[|N| + k] == T[k]; }
    }
    if Pair(S, T, x, y, w) {
      PairFree(S, T, x, y, w);
      forall k | 0 <= k < |U| ensures |U[k]| == w && Gap(U[k], x, y) == 0.0 {
        if k < |N| { NullLength(S, N[k], w); NullGap(S, N[k], x, y, w); }
      }
    }
  }

  lemma NullLength(S: iset<Vec>, v: Row, w: nat)
    requires Null(S, v, w)
    ensures |v| == w
  {
  }

  lemma WidthWithNull(S: iset<Vec>, N: seq<Row>, T: seq<Row>, v: Row, F: real, w: nat)
    requires AllNull(S, N, w) && IsWidth(S, N + T, v, F, w)
    ensures IsWidth(S, T, v, F, w)
  {
    hide Gap, Pair, AllNull;
    var x, y :| Pair(S, N + T, x, y, w) && Gap(v, x, y) >= F;
    PairWithNull(S, N, T, x, y, w);
    forall x, y | Pair(S, T, x, y, w) ensures Gap(v, x, y) <= F { PairWithNull(S, N, T, x, y, w); }
  }

  // ---------------------------------------------------------------- dual multipliers

  ghost function Weighted(T: seq<Row>, a: seq<real>, x: Vec, y: Vec, n: nat): real
    requires |a| == |T| && n <= |T|
  {
    if n == 0 then 0.0 else Weighted(T, a, x, y, n - 1) + a[n - 1] * Gap(T[n - 1], x, y)
  }

  /** The multipliers prove that F bounds the width along v. */
  ghost predicate Certified(S: iset<Vec>, T: seq<Row>, v: Row, F: real, a: seq<real>, w: nat) {
    && |v| == w && |a| == |T| && Matrix(T, w)
    && forall x, y | Pair(S, [], x, y, w) :: Gap(v, x, y) + Weighted(T, a, x, y, |T|) <= F
  }

  /** An optimal solution of the linear program with its dual. */
  ghost predicate Solved(S: iset<Vec>, T: seq<Row>, v: Row, F: real, a: seq<real>, w: nat) {
    IsWidth(S, T, v, F, w) && Certified(S, T, v, F, a, w)
  }

  lemma {:induction false} WeightedPrefix(T: seq<Row>, a: seq<real>, b: Row, c: real, x: Vec, y: Vec, n: nat)
    requires |a| == |T| && n <= |T|
    ensures Weighted(T + [b], a + [c], x, y, n) == Weighted(T, a, x, y, n)
  {
    hide Gap;
    if n > 0 { WeightedPrefix(T, a, b, c, x, y, n - 1); }
  }

  lemma {:induction false} WeightedZero(T: seq<Row>, a: seq<real>, x: Vec, y: Vec, n: nat)
    requires |a| == |T| && n <= |T|
    requires forall k | 0 <= k < |T| :: Gap(T[k], x, y) == 0.0
    ensures Weighted(T, a, x, y, n) == 0.0
  {
    if n > 0 { WeightedZero(T, a, x, y, n - 1); }
  }

  lemma WeightedLast(T: seq<Row>, a: seq<real>, b: Row, c: real, x: Vec, y: Vec)
    requires |a| == |T|
    ensures Weighted(T + [b], a + [c], x, y, |T| + 1) == Weighted(T, a, x, y, |T|) + c * Gap(b, x, y)
  {
    hide Gap;
    WeightedPrefix(T, a, b, c, x, y, |T|);
    var U, e := T + [b], a + [c];
    assert U[|T|] == b && e[|T|] == c;
    assert Weighted(U, e, x, y, |T| + 1) == Weighted(U, e, x, y, |T|) + e[|T|] * Gap(U[|T|], x, y);
  }

  /** Rows and multipliers without the last one, over the pairs of the others. */
  lemma CertifiedAlong(S: iset<Vec>, T: seq<Row>, b: Row, v: Row, F: real, a: seq<real>, c: real, x: Vec, y: Vec, w: nat)
    requires Certified(S, T + [b], v, F, a + [c], w) && |a| == |T| && Pair(S, T, x, y, w)
    ensures |b| == w && Gap(v, x, y) + c * Gap(b, x, y) <= F
  {
    hide Gap;
    assert (T + [b])[|T|] == b;
    PairFree(S, T, x, y, w);
    WeightedLast(T, a, b, c, x, y);
    WeightedZero(T, a, x, y, |T|);
  }

  /** With a whole multiplier the last row can be traded for a combined objective. */
  lemma WholeMultiplier(S: iset<Vec>, T: seq<Row>, b: Row, v: Row, F: real, a: seq<real>, c: int, w: nat)
    requires Solved(S, T + [b], v, F, a + [c as real], w) && |a| == |T|
    ensures |b| == |v| && Solved(S, T, AddScaled(v, b, c), F, a, w)
    ensures Minimal(S, T, AddScaled(v, b, c), b, F, w)
  {
    hide Gap, Pair, Certified;
    LastLength(S, T, b, v, F, w);
    var u := AddScaled(v, b, c);
    var x0, y0 :| Pair(S, T + [b], x0, y0, w) && Gap(v, x0, y0) >= F;
    PairExtended(S, T, b, x0, y0, w);
    GapAlong(S, T, b, v, c, x0, y0, w);
    forall x, y | Pair(S, T, x, y, w) ensures Gap(u, x, y) <= F {
      CertifiedAlong(S, T, b, v, F, a, c as real, x, y, w);
      GapOf(S, T, v, b, c, x, y, w);
    }
    CertifiedDropped(S, T, b, v, F, a, c, w);
    forall k: int ensures Reaches(S, T, AddScaled(u, b, k), F, w) {
      AddScaledTwice(v, b, c, k);
      GapAlong(S, T, b, v, c + k, x0, y0, w);
    }
  }

  lemma LastLength(S: iset<Vec>, T: seq<Row>, b: Row, v: Row, F: real, w: nat)
    requires IsWidth(S, T + [b], v, F, w)
    ensures |b| == w && |v| == w && Matrix(T, w)
  {
    hide Gap;
    var x, y :| Pair(S, T + [b], x, y, w) && Gap(v, x, y) >= F;
    PairMatrix(S, T + [b], x, y, w);
    assert (T + [b])[|T|] == b;
    forall k | 0 <= k < |T| ensures |T[k]| == w { assert (T + [b])[k] == T[k]; }
  }

  lemma PairMatrix(S: iset<Vec>, T: seq<Row>, x: Vec, y: Vec, w: nat)
    requires Pair(S, T, x, y, w)
    ensures Matrix(T, w) && |x| == w && |y| == w
  {
  }

  lemma GapOf(S: iset<Vec>, T: seq<Row>, v: Row, b: Row, c: int, x: Vec, y: Vec, w: nat)
    requires Pair(S, T, x, y, w) && |v| == w && |b| == w
    ensures Gap(AddScaled(v, b, c), x, y) == Gap(v, x, y) + (c as real) * Gap(b, x, y)
  {
    GapCombined(v, b, c, x, y);
  }

  /** Along pairs that agree in b, adding multiples of b changes nothing. */
  lemma GapAlong(S: iset<Vec>, T: seq<Row>, b: Row, v: Row, c: int, x: Vec, y: Vec, w: nat)
    requires |b| == w && |v| == w && Pair(S, T, x, y, w) && Gap(b, x, y) == 0.0
    ensures Gap(AddScaled(v, b, c), x, y) == Gap(v, x, y)
  {
    GapCombined(v, b, c, x, y);
  }

  lemma CertifiedDropped(S: iset<Vec>, T: seq<Row>, b: Row, v: Row, F: real, a: seq<real>, c: int, w: nat)
    requires Certified(S, T + [b], v, F, a + [c as real], w) && |a| == |T| && |b| == |v|
    ensures Certified(S, T, AddScaled(v, b, c), F, a, w)
  {
    hide Gap;
    forall k | 0 <= k < |T| ensures |T[k]| == w { assert (T + [b])[k] == T[k]; }
    forall x, y | Pair(S, [], x, y, w)
      ensures Gap(AddScaled(v, b, c), x, y) + Weighted(T, a, x, y, |T|) <= F
    {
      WeightedLast(T, a, b, c as real, x, y);
      GapCombined(v, b, c, x, y);
    }
  }

  /** No integer multiple of b added to v makes the width less than F. */
  ghost predicate Minimal(S: iset<Vec>, T: seq<Row>, v: Row, b: Row, F: real, w: nat) {
    |v| == |b| && forall k: int :: Reaches(S, T, AddScaled(v, b, k), F, w)
  }

  /** Of the two whole numbers around the multiplier the better one is the best
      of all whole numbers: the width is convex in the multiple of b. */
  lemma AroundMultiplier(S: iset<Vec>, T: seq<Row>, b: Row, v: Row, F: real, a: seq<real>, c: real,
                         lo: int, Glo: real, hi: int, Ghi: real, m: int, G: real, w: nat)
    requires Solved(S, T + [b], v, F, a + [c], w) && |a| == |T| && |b| == |v|
    requires (lo as real) < c < (hi as real) && hi == lo + 1
    requires IsWidth(S, T, AddScaled(v, b, lo), Glo, w) && IsWidth(S, T, AddScaled(v, b, hi), Ghi, w)
    requires G <= Glo && G <= Ghi
    ensures Minimal(S, T, AddScaled(v, b, m), b, G, w)
  {
    hide Gap, Pair, Certified;
    LastLength(S, T, b, v, F, w);
    forall k: int ensures Reaches(S, T, AddScaled(AddScaled(v, b, m), b, k), G, w) {
      AddScaledTwice(v, b, m, k);
      if m + k <= lo {
        BelowMultiplier(S, T, b, v, F, a, c, lo, Glo, m + k, w);
      } else {
        AboveMultiplier(S, T, b, v, F, a, c, hi, Ghi, m + k, w);
      }
    }
  }

  lemma BelowMultiplier(S: iset<Vec>, T: seq<Row>, b: Row, v: Row, F: real, a: seq<real>, c: real,
                        lo: int, G: real, k: int, w: nat)
    requires Solved(S, T + [b], v, F, a + [c], w) && |a| == |T| && |b| == |v|
    requires k <= lo && (lo as real) < c && IsWidth(S, T, AddScaled(v, b, lo), G, w)
    ensures Reaches(S, T, AddScaled(v, b, k), G, w)
  {
    hide Gap, Pair, Certified;
    LastLength(S, T, b, v, F, w);
    WidthAtLeast(S, T, b, v, F, lo, G, w);
    var x, y :| Pair(S, T, x, y, w) && Gap(AddScaled(v, b, lo), x, y) >= G;
    CertifiedAlong(S, T, b, v, F, a, c, x, y, w);
    GapOf(S, T, v, b, lo, x, y, w);
    GapOf(S, T, v, b, k, x, y, w);
    ConvexBelow(Gap(v, x, y), Gap(b, x, y), k as real, lo as real, c, F, G);
    ReachesBy(S, T, AddScaled(v, b, k), G, x, y, w);
  }

  lemma AboveMultiplier(S: iset<Vec>, T: seq<Row>, b: Row, v: Row, F: real, a: seq<real>, c: real,
                        hi: int, G: real, k: int, w: nat)
    requires Solved(S, T + [b], v, F, a + [c], w) && |a| == |T| && |b| == |v|
    requires hi <= k && c < (hi as real) && IsWidth(S, T, AddScaled(v, b, hi), G, w)
    ensures Reaches(S, T, AddScaled(v, b, k), G, w)
  {
    hide Gap, Pair, Certified;
    LastLength(S, T, b, v, F, w);
    WidthAtLeast(S, T, b, v, F, hi, G, w);
    var x, y :| Pair(S, T, x, y, w) && Gap(AddScaled(v, b, hi), x, y) >= G;
    CertifiedAlong(S, T, b, v, F, a, c, x, y, w);
    GapOf(S, T, v, b, hi, x, y, w);
    GapOf(S, T, v, b, k, x, y, w);
    ConvexAbove(Gap(v, x, y), Gap(b, x, y), k as real, hi as real, c, F, G);
    ReachesBy(S, T, AddScaled(v, b, k), G, x, y, w);
  }

  lemma ReachesBy(S: iset<Vec>, T: seq<Row>, v: Row, G: real, x: Vec, y: Vec, w: nat)
    requires Pair(S, T, x, y, w) && |v| == w && Gap(v, x, y) >= G
    ensures Reaches(S, T, v, G, w)
  {
  }

  lemma ConvexAbove(g: real, h: real, k: real, hi: real, c: real, F: real, G: real)
    requires c < hi <= k && g + hi * h >= G >= F && g + c * h <= F
    ensures g + k * h >= G
  {
    NegateAll(h, k, hi, c);
    ConvexBelow(g, -h, -k, -hi, -c, F, G);
  }

  lemma NegateAll(g: real, k: real, h: real, c: real)
    ensures k * g == (-k) * (-g) && h * g == (-h) * (-g) && c * g == (-c) * (-g)
  {
  }

  lemma ConvexBelow(g: real, h: real, k: real, lo: real, c: real, F: real, G: real)
    requires k <= lo < c && g + lo * h >= G >= F && g + c * h <= F
    ensures g + k * h >= G
  {
    assert (c - lo) * h <= 0.0 by { assert (c - lo) * h == c * h - lo * h; }
    assert h <= 0.0 by { if h > 0.0 { Positive(c - lo, h); } }
    NonPositive(lo - k, h);
    assert (lo - k) * h == lo * h - k * h;
  }

  lemma Positive(a: real, b: real)
    requires a > 0.0 && b > 0.0
    ensures a * b > 0.0
  {
  }

  lemma NonPositive(a: real, b: real)
    requires a >= 0.0 && b <= 0.0
    ensures a * b <= 0.0
  {
  }

  /** Every pair that agrees in b is one of the pairs of the width along v + c b. */
  lemma WidthAtLeast(S: iset<Vec>, T: seq<Row>, b: Row, v: Row, F: real, c: int, G: real, w: nat)
    requires IsWidth(S, T + [b], v, F, w) && |b| == w && |v| == w
    requires IsWidth(S, T, AddScaled(v, b, c), G, w)
    ensures F <= G
  {
    hide Gap, Pair;
    var x, y :| Pair(S, T + [b], x, y, w) && Gap(v, x, y) >= F;
    PairExtended(S, T, b, x, y, w);
    GapAlong(S, T, b, v, c, x, y, w);
  }

  /** Adding a multiple of a row that the pairs agree in keeps the width. */
  lemma WidthAlong(S: iset<Vec>, T: seq<Row>, b: Row, v: Row, F: real, c: int, w: nat)
    requires IsWidth(S, T + [b], v, F, w)
    ensures |b| == |v| && IsWidth(S, T + [b], AddScaled(v, b, c), F, w)
  {
    hide Gap, Pair;
    LastLength(S, T, b, v, F, w);
    var x0, y0 :| Pair(S, T + [b], x0, y0, w) && Gap(v, x0, y0) >= F;
    forall x, y | Pair(S, T + [b], x, y, w) ensures Gap(AddScaled(v, b, c), x, y) == Gap(v, x, y) {
      PairExtended(S, T, b, x, y, w);
      GapAlong(S, T, b, v, c, x, y, w);
    }
  }

  /** The two conditions of a reduced basis, with epsilon 1/4, for the rows b and v
      over the pairs that agree in T. */
  ghost predicate Accepted(S: iset<Vec>, T: seq<Row>, b: Row, v: Row, w: nat) {
    exists F, G ::
      IsWidth(S, T, b, F, w) && IsWidth(S, T, v, G, w) && 4.0 * G >= 3.0 * F && Minimal(S, T, v, b, G, w)
  }
}
