/** The linear programs of the basis reduction: a tableau for pairs of points of
    a set, rows along which the pairs must agree, planes that cut the set, and a
    stack of snapshots to return to. The simplex solver is a function that may
    answer every query differently, as long as each answer is an optimum with
    its dual. */
module LpTableau {
  import opened IntArith
  import opened LinearAlgebra
  import opened Points
  import opened LatticeBasis
  import opened Widths

  /** A constraint that pairs agree in a row, or that both points lie on a plane. */
  datatype Entry = Parallel(row: Row) | Plane(row: Row, value: int)

  /** The optimum, whether the objective has at most one whole value, and the dual
      value of each constraint of the tableau. */
  datatype Answer = Answer(width: real, fixed: bool, dual: int -> real)

  datatype Plummet = Plummet(value: int, empty: bool)

  // ---------------------------------------------------------------- contents

  function RowsOf(t: seq<Entry>): (r: seq<Row>) {
    if t == [] then []
    else
      var e := t[|t| - 1];
      RowsOf(t[..|t| - 1]) + if e.Parallel? then [e.row] else []
  }

  function PlaneRows(t: seq<Entry>): (r: seq<Row>) {
    if t == [] then []
    else
      var e := t[|t| - 1];
      PlaneRows(t[..|t| - 1]) + if e.Plane? then [e.row] else []
  }

  /** The number of constraints: a plane cuts both halves of the tableau. */
  function Size(t: seq<Entry>): nat {
    |RowsOf(t)| + 2 * |PlaneRows(t)|
  }

  function Parallels(T: seq<Row>): (t: seq<Entry>)
    ensures |t| == |T|
  {
    seq(|T|, k requires 0 <= k < |T| => Parallel(T[k]))
  }

  lemma ContentsExtended(t: seq<Entry>, e: Entry)
    ensures RowsOf(t + [e]) == RowsOf(t) + (if e.Parallel? then [e.row] else [])
    ensures PlaneRows(t + [e]) == PlaneRows(t) + (if e.Plane? then [e.row] else [])
  {
    assert (t + [e])[..|t|] == t;
  }

  lemma ParallelsExtended(h: seq<Entry>, T: seq<Row>, r: Row)
    ensures h + Parallels(T + [r]) == (h + Parallels(T)) + [Parallel(r)]
  {
  }

  lemma {:induction false} ContentsTail(h: seq<Entry>, T: seq<Row>)
    ensures RowsOf(h + Parallels(T)) == RowsOf(h) + T && PlaneRows(h + Parallels(T)) == PlaneRows(h)
    decreases |T|
  {
    if T == [] {
      assert h + Parallels(T) == h;
    } else {
      var T', r := T[..|T| - 1], T[|T| - 1];
      ContentsTail(h, T');
      assert T == T' + [r];
      ParallelsExtended(h, T', r);
      ContentsExtended(h + Parallels(T'), Parallel(r));
    }
  }

  // ---------------------------------------------------------------- the set behind the tableau

  ghost function Height(v: Row, x: Vec): real {
    if |v| == |x| then Dot(Lift(v), x, |x|) else 0.0
  }

  ghost predicate OnPlane(e: Entry, x: Vec) {
    e.Plane? ==> Height(e.row, x) == (e.value as real)
  }

  /** The points on all planes. */
  ghost function Within(region: iset<Vec>, t: seq<Entry>): iset<Vec> {
    iset x | x in region && forall k | 0 <= k < |t| :: OnPlane(t[k], x)
  }

  lemma WithinExtended(region: iset<Vec>, t: seq<Entry>, e: Entry)
    ensures Within(region, t + [e]) == iset x | x in Within(region, t) && OnPlane(e, x)
  {
    hide OnPlane;
    forall x ensures x in Within(region, t + [e]) <==> x in Within(region, t) && OnPlane(e, x) {
      var u := t + [e];
      if x in Within(region, u) {
        assert u[|t|] == e;
        forall k | 0 <= k < |t| ensures OnPlane(t[k], x) { assert u[k] == t[k]; }
      }
    }
  }

  lemma WithinPush(region: iset<Vec>, t: seq<Entry>, r: Row)
    ensures Within(region, t + [Parallel(r)]) == Within(region, t)
  {
    WithinExtended(region, t, Parallel(r));
  }

  ghost predicate BoundedRow(S: iset<Vec>, v: Row, w: nat) {
    exists F :: Bounded(S, [], v, F, w)
  }

  ghost predicate NonEmpty(S: iset<Vec>) {
    exists x :: x in S
  }

  /** At most one whole value lies between those of a pair that spans the width. */
  ghost predicate OneValue(S: iset<Vec>, T: seq<Row>, v: Row, F: real, w: nat) {
    exists x, y :: Pair(S, T, x, y, w) && Gap(v, x, y) >= F && Height(v, x).Floor <= Ceiling(Height(v, y))
  }

  /** The flag that `solve_lp` sets: the test at the pair where it found the width. */
  ghost predicate Flagged(S: iset<Vec>, T: seq<Row>, v: Row, F: real, fixed: bool, w: nat) {
    exists x, y ::
      Pair(S, T, x, y, w) && Gap(v, x, y) >= F && (fixed <==> Height(v, x).Floor <= Ceiling(Height(v, y)))
  }

  /** A flag that was found for some row with the same values at the two points up to a
      shift: for the row v itself, or for one that differs by rows the points agree in. */
  ghost predicate KeptFlag(S: iset<Vec>, T: seq<Row>, v: Row, F: real, fixed: bool, w: nat) {
    exists u, x, y ::
      && Pair(S, T, x, y, w) && Gap(v, x, y) >= F && |u| == |v| == w && Gap(u, x, y) == Gap(v, x, y)
      && (fixed <==> Height(u, x).Floor <= Ceiling(Height(u, y)))
  }

  lemma FlaggedKept(S: iset<Vec>, T: seq<Row>, v: Row, F: real, fixed: bool, w: nat)
    requires Flagged(S, T, v, F, fixed, w) && |v| == w
    ensures KeptFlag(S, T, v, F, fixed, w)
  {
    hide Gap, Pair, Height;
    var x, y :|
      Pair(S, T, x, y, w) && Gap(v, x, y) >= F && (fixed <==> Height(v, x).Floor <= Ceiling(Height(v, y)));
    KeptBy(S, T, v, v, F, fixed, x, y, w);
  }

  lemma KeptBy(S: iset<Vec>, T: seq<Row>, u: Row, v: Row, F: real, fixed: bool, x: Vec, y: Vec, w: nat)
    requires Pair(S, T, x, y, w) && Gap(v, x, y) >= F && |u| == |v| == w && Gap(u, x, y) == Gap(v, x, y)
    requires fixed <==> Height(u, x).Floor <= Ceiling(Height(u, y))
    ensures KeptFlag(S, T, v, F, fixed, w)
  {
  }

  /** The flag is kept where a multiple of a row is added that the points agree in. */
  lemma KeptCombined(S: iset<Vec>, T: seq<Row>, b: Row, v: Row, c: int, F: real, fixed: bool, w: nat)
    requires KeptFlag(S, T + [b], v, F, fixed, w) && |b| == |v| == w
    ensures KeptFlag(S, T, AddScaled(v, b, c), F, fixed, w)
  {
    hide Gap, Pair, Height, AddScaled;
    var u, x, y :|
      Pair(S, T + [b], x, y, w) && Gap(v, x, y) >= F && |u| == |v| == w && Gap(u, x, y) == Gap(v, x, y)
      && (fixed <==> Height(u, x).Floor <= Ceiling(Height(u, y)));
    PairExtended(S, T, b, x, y, w);
    GapAlong(S, T, b, v, c, x, y, w);
    KeptBy(S, T, u, AddScaled(v, b, c), F, fixed, x, y, w);
  }

  /** A row narrower than 1 is flagged, and a flagged row is narrower than 2. */
  lemma KeptNarrow(S: iset<Vec>, T: seq<Row>, v: Row, F: real, fixed: bool, w: nat)
    requires KeptFlag(S, T, v, F, fixed, w) && IsWidth(S, T, v, F, w)
    ensures (F < 1.0 ==> fixed) && (fixed ==> F < 2.0)
  {
    hide Gap, Pair, Height;
    var u, x, y :|
      Pair(S, T, x, y, w) && Gap(v, x, y) >= F && |u| == |v| == w && Gap(u, x, y) == Gap(v, x, y)
      && (fixed <==> Height(u, x).Floor <= Ceiling(Height(u, y)));
    PairMatrix(S, T, x, y, w);
    GapHeights(u, x, y);
    FlagNarrow(Height(u, x), Height(u, y));
  }

  lemma FlagNarrow(hi: real, lo: real)
    ensures hi < lo + 1.0 ==> hi.Floor <= Ceiling(lo)
    ensures hi.Floor <= Ceiling(lo) ==> hi < lo + 2.0
  {
  }

  lemma FlaggedOneValue(S: iset<Vec>, T: seq<Row>, v: Row, F: real, fixed: bool, w: nat)
    requires Flagged(S, T, v, F, fixed, w)
    ensures fixed ==> OneValue(S, T, v, F, w)
  {
  }

  ghost function WeightedEntries(t: seq<Entry>, base: int, dual: int -> real, x: Vec, y: Vec): real {
    if t == [] then 0.0
    else
      var t', e := t[..|t| - 1], t[|t| - 1];
      WeightedEntries(t', base, dual, x, y)
      + if e.Parallel? then dual(base + Size(t')) * Gap(e.row, x, y) else 0.0
  }

  /** What `solve_lp` leaves: the width with a pair that attains it, and the dual
      as a proof that no pair exceeds it. */
  ghost predicate IsAnswer(region: iset<Vec>, base: nat, t: seq<Entry>, v: Row, a: Answer, w: nat) {
    var S := Within(region, t);
    && IsWidth(S, RowsOf(t), v, a.width, w)
    && (forall x, y | Pair(S, [], x, y, w) :: Gap(v, x, y) + WeightedEntries(t, base, a.dual, x, y) <= a.width)
    && Flagged(S, RowsOf(t), v, a.width, a.fixed, w)
  }

  /** The least value of the row rounded up, and whether its plane misses the set. */
  ghost predicate IsPlummet(region: iset<Vec>, t: seq<Entry>, v: Row, p: Plummet) {
    var S := Within(region, t);
    && (forall x | x in S :: Height(v, x) > (p.value as real) - 1.0)
    && (exists x :: x in S && Height(v, x) <= (p.value as real))
    && (p.empty <==> !NonEmpty(Within(region, t + [Plane(v, p.value)])))
  }

  ghost predicate WellPosed(region: iset<Vec>, t: seq<Entry>, v: Row, w: nat) {
    BoundedRow(region, v, w) && Matrix(RowsOf(t), w) && NonEmpty(Within(region, t))
  }

  type Solver = (nat, seq<Entry>, Row) -> Answer
  type Cutter = (nat, seq<Entry>, Row) -> Plummet

  ghost predicate Correct(region: iset<Vec>, base: nat, solver: Solver, cutter: Cutter, w: nat) {
    && (forall q, t, v :: WellPosed(region, t, v, w) ==> IsAnswer(region, base, t, v, solver(q, t, v), w))
    && (forall q, t, v :: WellPosed(region, t, v, w) ==> IsPlummet(region, t, v, cutter(q, t, v)))
  }

  // ---------------------------------------------------------------- reading the dual

  lemma WeightedExtended(t: seq<Entry>, e: Entry, base: int, dual: int -> real, x: Vec, y: Vec)
    ensures WeightedEntries(t + [e], base, dual, x, y) == WeightedEntries(t, base, dual, x, y)
      + if e.Parallel? then dual(base + Size(t)) * Gap(e.row, x, y) else 0.0
  {
    hide Gap, Size;
    assert (t + [e])[..|t|] == t;
  }

  lemma {:induction false} NullEntries(S: iset<Vec>, t: seq<Entry>, base: int, dual: int -> real, x: Vec, y: Vec, w: nat)
    requires AllNull(S, RowsOf(t), w) && Pair(S, [], x, y, w)
    ensures WeightedEntries(t, base, dual, x, y) == 0.0
    decreases |t|
  {
    hide Gap, Pair, Size, Bounded;
    if t != [] {
      var t', e := t[..|t| - 1], t[|t| - 1];
      assert t == t' + [e];
      ContentsExtended(t', e);
      var rows := RowsOf(t);
      forall k | 0 <= k < |RowsOf(t')| ensures Null(S, RowsOf(t')[k], w) { assert rows[k] == RowsOf(t')[k]; }
      NullEntries(S, t', base, dual, x, y, w);
      if e.Parallel? {
        assert rows[|rows| - 1] == e.row;
        NullGap(S, e.row, x, y, w);
      }
    }
  }

  /** The dual values of n constraints from position p on. */
  ghost function DualFrom(dual: int -> real, p: int, n: nat): (a: seq<real>)
    ensures |a| == n
  {
    seq(n, k requires 0 <= k < n => dual(p + k))
  }

  lemma {:induction false} TailEntries(h: seq<Entry>, T: seq<Row>, base: int, dual: int -> real, x: Vec, y: Vec)
    ensures WeightedEntries(h + Parallels(T), base, dual, x, y)
         == WeightedEntries(h, base, dual, x, y)
          + Weighted(T, DualFrom(dual, base + Size(h), |T|), x, y, |T|)
    decreases |T|
  {
    hide Gap, Size, RowsOf, PlaneRows, WeightedEntries, Parallels, DualFrom;
    var p := base + Size(h);
    if T == [] {
      assert h + Parallels(T) == h;
    } else {
      var n, r := |T| - 1, T[|T| - 1];
      var T' := T[..n];
      assert T == T' + [r];
      TailEntries(h, T', base, dual, x, y);
      ParallelsExtended(h, T', r);
      WeightedExtended(h + Parallels(T'), Parallel(r), base, dual, x, y);
      TailSize(h, T');
      DualExtended(dual, p, n);
      WeightedLast(T', DualFrom(dual, p, n), r, dual(p + n), x, y);
    }
  }

  lemma DualExtended(dual: int -> real, p: int, n: nat)
    ensures DualFrom(dual, p, n + 1) == DualFrom(dual, p, n) + [dual(p + n)]
  {
  }

  lemma TailSize(h: seq<Entry>, T: seq<Row>)
    ensures Size(h + Parallels(T)) == Size(h) + |T|
  {
    ContentsTail(h, T);
  }

  /** Behind rows that are null the dual values are multipliers of the other rows. */
  lemma AnswerSolves(region: iset<Vec>, base: nat, h: seq<Entry>, T: seq<Row>, v: Row, a: Answer, w: nat)
    requires IsAnswer(region, base, h + Parallels(T), v, a, w) && Matrix(T, w)
    requires AllNull(Within(region, h + Parallels(T)), RowsOf(h), w)
    ensures Solved(Within(region, h + Parallels(T)), T, v, a.width, DualFrom(a.dual, base + Size(h), |T|), w)
  {
    hide Gap, Pair, Size, AllNull, Within, Reaches, Bounded;
    var t := h + Parallels(T);
    var S := Within(region, t);
    var d := DualFrom(a.dual, base + Size(h), |T|);
    ContentsTail(h, T);
    WidthWithNull(S, RowsOf(h), T, v, a.width, w);
    WidthLength(S, T, v, a.width, w);
    forall x, y | Pair(S, [], x, y, w) ensures Gap(v, x, y) + Weighted(T, d, x, y, |T|) <= a.width {
      TailEntries(h, T, base, a.dual, x, y);
      NullEntries(S, h, base, a.dual, x, y, w);
    }
  }

  lemma WidthLength(S: iset<Vec>, T: seq<Row>, v: Row, F: real, w: nat)
    requires IsWidth(S, T, v, F, w)
    ensures |v| == w
  {
  }

  lemma FlaggedWithNull(S: iset<Vec>, N: seq<Row>, T: seq<Row>, v: Row, F: real, fixed: bool, w: nat)
    requires AllNull(S, N, w) && Flagged(S, N + T, v, F, fixed, w)
    ensures Flagged(S, T, v, F, fixed, w)
  {
    hide Gap, Pair, AllNull, Height;
    var x, y :|
      Pair(S, N + T, x, y, w) && Gap(v, x, y) >= F && (fixed <==> Height(v, x).Floor <= Ceiling(Height(v, y)));
    PairWithNull(S, N, T, x, y, w);
  }

  // ---------------------------------------------------------------- cutting

  lemma {:induction false} BoundedOn(S: iset<Vec>, R: iset<Vec>, v: Row, F: real, w: nat)
    requires Bounded(R, [], v, F, w) && S <= R
    ensures Bounded(S, [], v, F, w)
  {
    hide Gap;
    forall x, y | Pair(S, [], x, y, w) ensures Pair(R, [], x, y, w) {
    }
  }

  lemma PlaneNull(region: iset<Vec>, t: seq<Entry>, v: Row, c: int, w: nat)
    requires |v| == w
    ensures Within(region, t + [Plane(v, c)]) <= Within(region, t)
    ensures Null(Within(region, t + [Plane(v, c)]), v, w)
  {
    var S := Within(region, t + [Plane(v, c)]);
    WithinExtended(region, t, Plane(v, c));
    forall x, y | Pair(S, [], x, y, w) ensures Gap(v, x, y) <= 0.0 {
      assert OnPlane(Plane(v, c), x) && OnPlane(Plane(v, c), y);
    }
  }

  ghost predicate InSpace(S: iset<Vec>, w: nat) {
    forall x | x in S :: |x| == w
  }

  /** Every integer point of R is in S. */
  ghost predicate KeepsPoints(R: iset<Vec>, S: iset<Vec>) {
    forall p: seq<int> | Lift(p) in R :: Lift(p) in S
  }

  ghost function ISum(v: Row, p: seq<int>, n: nat): int
    requires n <= |v| && n <= |p|
  {
    if n == 0 then 0 else ISum(v, p, n - 1) + v[n - 1] * p[n - 1]
  }

  lemma {:induction false} WholeHeight(v: Row, p: seq<int>, n: nat)
    requires n <= |v| && n <= |p|
    ensures Dot(Lift(v), Lift(p), n) == ISum(v, p, n) as real
  {
    if n > 0 {
      WholeHeight(v, p, n - 1);
      MulReal(v[n - 1], p[n - 1]);
    }
  }

  /** A plane through the rounded-up least value of a row that has at most one
      whole value holds every integer point. */
  lemma CutKeepsPoints(region: iset<Vec>, t: seq<Entry>, v: Row, p: Plummet, F: real, w: nat)
    requires |v| == w && InSpace(region, w)
    requires IsPlummet(region, t, v, p) && Bounded(Within(region, t), [], v, F, w)
    requires OneValue(Within(region, t), [], v, F, w)
    ensures KeepsPoints(Within(region, t), Within(region, t + [Plane(v, p.value)]))
  {
    var S := Within(region, t);
    hide Within, IsPlummet, Gap, Pair, Height, OneValue;
    WithinExtended(region, t, Plane(v, p.value));
    forall q: seq<int> | Lift(q) in S ensures Lift(q) in Within(region, t + [Plane(v, p.value)]) {
      OneWholeValue(region, t, v, p, F, q, w);
    }
  }

  lemma OneWholeValue(region: iset<Vec>, t: seq<Entry>, v: Row, p: Plummet, F: real, q: seq<int>, w: nat)
    requires |v| == w && InSpace(region, w)
    requires IsPlummet(region, t, v, p) && Bounded(Within(region, t), [], v, F, w)
    requires OneValue(Within(region, t), [], v, F, w) && Lift(q) in Within(region, t)
    ensures Height(v, Lift(q)) == (p.value as real)
  {
    hide IsPlummet, Gap;
    var S := Within(region, t);
    var x, y :| Pair(S, [], x, y, w) && Gap(v, x, y) >= F && Height(v, x).Floor <= Ceiling(Height(v, y));
    var z := Lift(q);
    assert z in region;
    WholeHeight(v, q, w);
    assert Pair(S, [], x, z, w) && Pair(S, [], z, y, w);
    GapHeights(v, x, y);
    GapHeights(v, x, z);
    GapHeights(v, z, y);
    var m := PlummetPoint(region, t, v, p);
    assert Pair(S, [], x, m, w);
    GapHeights(v, x, m);
    PlummetBelow(region, t, v, p, z);
    SqueezedWhole(Height(v, x), Height(v, y), ISum(v, q, w), p.value);
  }

  lemma GapHeights(v: Row, x: Vec, y: Vec)
    requires |v| == |x| == |y|
    ensures Gap(v, x, y) == Height(v, x) - Height(v, y)
  {
  }

  lemma PlummetBelow(region: iset<Vec>, t: seq<Entry>, v: Row, p: Plummet, z: Vec)
    requires IsPlummet(region, t, v, p) && z in Within(region, t)
    ensures Height(v, z) > (p.value as real) - 1.0
  {
  }

  lemma PlummetPoint(region: iset<Vec>, t: seq<Entry>, v: Row, p: Plummet) returns (x: Vec)
    requires IsPlummet(region, t, v, p)
    ensures x in Within(region, t) && Height(v, x) <= (p.value as real)
  {
    x :| x in Within(region, t) && Height(v, x) <= (p.value as real);
  }

  lemma SqueezedWhole(hi: real, lo: real, z: int, c: int)
    requires (z as real) <= hi && hi.Floor <= Ceiling(lo)
    requires lo <= (c as real) && (z as real) > (c as real) - 1.0
    ensures z == c
  {
    assert z <= hi.Floor;
  }

  /** An interval shorter than 1 holds at most one whole value. */
  lemma NarrowOneValue(S: iset<Vec>, T: seq<Row>, v: Row, F: real, w: nat)
    requires IsWidth(S, T, v, F, w) && F < 1.0
    ensures OneValue(S, T, v, F, w)
  {
    hide Gap;
    var x, y :| Pair(S, T, x, y, w) && Gap(v, x, y) >= F;
    GapHeights(v, x, y);
    assert Height(v, x) < Height(v, y) + 1.0;
    NarrowFloor(Height(v, x), Height(v, y));
  }

  lemma NarrowFloor(hi: real, lo: real)
    requires hi < lo + 1.0
    ensures hi.Floor <= Ceiling(lo)
  {
  }

  lemma FlaggedDropped(S: iset<Vec>, T: seq<Row>, b: Row, v: Row, F: real, fixed: bool, w: nat)
    requires Flagged(S, T + [b], v, F, fixed, w) && |b| == w
    ensures Flagged(S, T, v, F, fixed, w)
  {
    hide Gap, Pair, Height;
    var x, y :|
      Pair(S, T + [b], x, y, w) && Gap(v, x, y) >= F && (fixed <==> Height(v, x).Floor <= Ceiling(Height(v, y)));
    PairExtended(S, T, b, x, y, w);
  }

  /** A pair that agrees in b, at height beta, keeps its flag for v + c b exactly if
      the two heights moved by c beta still have at most one whole value between them:
      always if c beta is whole. */
  lemma FlagTransfers(S: iset<Vec>, T: seq<Row>, b: Row, v: Row, c: int, x: Vec, y: Vec, w: nat)
    requires Pair(S, T + [b], x, y, w) && |v| == |b| == w
    ensures Pair(S, T, x, y, w) && Gap(AddScaled(v, b, c), x, y) == Gap(v, x, y)
    ensures var u, beta := AddScaled(v, b, c), (c as real) * Height(b, x);
      && (Height(u, x).Floor <= Ceiling(Height(u, y))
          <==> (Height(v, x) + beta).Floor <= Ceiling(Height(v, y) + beta))
      && (beta == (beta.Floor as real) ==>
            (Height(u, x).Floor <= Ceiling(Height(u, y)) <==> Height(v, x).Floor <= Ceiling(Height(v, y))))
  {
    PairExtended(S, T, b, x, y, w);
    PairMatrix(S, T, x, y, w);
    GapAlong(S, T, b, v, c, x, y, w);
    GapHeights(b, x, y);
    HeightCombined(v, b, c, x);
    HeightCombined(v, b, c, y);
    hide Height, Gap, Pair;
    var beta := (c as real) * Height(b, x);
    if beta == (beta.Floor as real) {
      WholeShift(Height(v, x), Height(v, y), beta.Floor);
    }
  }

  lemma HeightCombined(v: Row, b: Row, c: int, x: Vec)
    requires |v| == |b| == |x|
    ensures Height(AddScaled(v, b, c), x) == Height(v, x) + (c as real) * Height(b, x)
  {
    hide Dot;
    var r := AddScaled(v, b, c);
    forall k | 0 <= k < |v| ensures Lift(r)[k] == Lift(v)[k] + (c as real) * Lift(b)[k] {
      MulReal(c, b[k]);
    }
    DotLinear(Lift(r), Lift(v), c as real, Lift(b), x, |x|);
  }

  lemma WholeShift(hi: real, lo: real, k: int)
    ensures (hi + (k as real)).Floor == hi.Floor + k && Ceiling(lo + (k as real)) == Ceiling(lo) + k
  {
  }

  lemma KeepsTransitive(Q: iset<Vec>, R: iset<Vec>, S: iset<Vec>)
    requires KeepsPoints(Q, R) && KeepsPoints(R, S)
    ensures KeepsPoints(Q, S)
  {
  }

  lemma BoundedCombined(S: iset<Vec>, v: Row, b: Row, c: int, w: nat)
    requires BoundedRow(S, v, w) && BoundedRow(S, b, w)
    ensures |v| == w && |b| == w && BoundedRow(S, AddScaled(v, b, c), w)
  {
    hide Gap;
    var F :| Bounded(S, [], v, F, w);
    var G :| Bounded(S, [], b, G, w);
    var m: real := if c >= 0 then c as real else (-c) as real;
    forall x, y | Pair(S, [], x, y, w) ensures Gap(AddScaled(v, b, c), x, y) <= F + m * G {
      GapCombined(v, b, c, x, y);
      PairSwapped(S, [], x, y, w);
      GapSwapped(b, x, y);
      AbsoluteMultiple(c, Gap(b, x, y), G, m);
    }
    assert Bounded(S, [], AddScaled(v, b, c), F + m * G, w);
  }

  lemma AbsoluteMultiple(c: int, g: real, G: real, m: real)
    requires -G <= g <= G && m == if c >= 0 then c as real else (-c) as real
    ensures (c as real) * g <= m * G
  {
    if c >= 0 { NonPositive(m, g - G); assert m * (g - G) == m * g - m * G; }
    else {
      NonPositive(m, -g - G);
      assert (c as real) == -m;
      assert m * (-g - G) == (-m) * g - m * G;
    }
  }
}
