/** `extend_affine_hull`: grow an under-approximation of the affine hull of the
    integer points of a tableau by points found outside it, until none is left. */
module ExtendHull {
  import opened Wrappers
  import opened LinearAlgebra
  import opened Points
  import opened JoinStep
  import opened JoinColumn
  import opened BasicSets
  import opened HullJoin

  // ---------------------------------------------------------------- arithmetic of outside_point

  function Negated(r: Row): (s: Row)
    ensures |s| == |r|
  {
    Scaled(r, -1, |r|)
  }

  /** Sum of the squares of the variable coefficients among the first n entries. */
  function Squares(r: Row, n: nat): (s: nat)
    requires n <= |r|
    ensures s == 0 ==> forall k | 1 <= k < n :: r[k] == 0
  {
    if n <= 1 then 0 else
      var x := r[n - 1];
      assert x * x >= 0 && (x * x == 0 ==> x == 0);
      Squares(r, n - 1) + x * x
  }

  /** p moved by d along the normal of r. */
  function Shifted(p: seq<int>, r: Row, d: int): (q: seq<int>)
    requires |r| == |p| + 1
    ensures |q| == |p| && forall k | 0 <= k < |p| :: q[k] == p[k] + d * r[1 + k]
  {
    seq(|p|, k requires 0 <= k < |p| => p[k] + d * r[1 + k])
  }

  lemma {:induction false} ShiftedDot(r: Row, p: seq<int>, d: int, n: nat)
    requires |r| == |p| + 1 && n <= |r|
    ensures IDot(r, Homog(Shifted(p, r, d)), n) == IDot(r, Homog(p), n) + d * Squares(r, n)
  {
    if n == 1 {
      assert IDot(r, Homog(Shifted(p, r, d)), 0) == IDot(r, Homog(p), 0) == 0;
    } else if n > 1 {
      ShiftedDot(r, p, d, n - 1);
      ShiftedTerm(r[n - 1], p[n - 2], d, Squares(r, n - 1));
    }
  }

  lemma ShiftedTerm(x: int, y: int, d: int, s: int)
    ensures d * s + x * (y + d * x) == x * y + d * (s + x * x)
  {
  }

  /** Moving a point of the hyperplane along the normal leaves the hyperplane on the chosen side. */
  lemma ShiftedValue(r: Row, p: seq<int>, up: bool)
    requires |r| == |p| + 1 && ValueAt(r, p) == 0 && Lead(r) >= 1
    ensures Beyond(r, Shifted(p, r, if up then 1 else -1), up)
  {
    ShiftedDot(r, p, if up then 1 else -1, |r|);
    assert Squares(r, |r|) > 0 by { assert r[Lead(r)] != 0; }
  }

  lemma {:induction false} NegatedDot(r: Row, x: Row, n: nat)
    requires n <= |r| && n <= |x|
    ensures IDot(Negated(r), x, n) == -IDot(r, x, n)
  {
    if n > 0 { NegatedDot(r, x, n - 1); }
  }

  lemma {:induction false} ConstantDot(r: Row, x: Row, c: int, n: nat)
    requires 1 <= n <= |r| && n <= |x| && x[0] == 1
    ensures IDot(r[0 := r[0] + c], x, n) == IDot(r, x, n) + c
  {
    if n == 1 {
      assert IDot(r[0 := r[0] + c], x, 0) == IDot(r, x, 0) == 0;
    } else {
      ConstantDot(r, x, c, n - 1);
    }
  }

  /** p lies at least one unit beyond the equality r, above it or below it. */
  predicate Beyond(r: Row, p: seq<int>, up: bool)
    requires |r| == |p| + 1
  {
    if up then ValueAt(r, p) >= 1 else ValueAt(r, p) <= -1
  }

  /** The inequality that `outside_point` hands to the solver. */
  function Inequality(r: Row, up: bool): (s: Row)
    requires |r| > 0
    ensures |s| == |r|
  {
    var t := if up then r else Negated(r);
    t[0 := t[0] + -1]
  }

  /** Undoing the shift and the negation gives back the equality. */
  lemma Restored(r: Row, up: bool)
    requires |r| > 0
    ensures var t := Inequality(r, up)[0 := Inequality(r, up)[0] + 1];
      (if up then t else Negated(t)) == r && ShiftedRow(Inequality(r, up), false, 1, !up) == r
  {
    var t := Inequality(r, up)[0 := Inequality(r, up)[0] + 1];
    assert t == if up then r else Negated(r);
  }

  lemma InequalityValue(r: Row, p: seq<int>, up: bool)
    requires |r| == |p| + 1
    ensures ValueAt(Inequality(r, up), p) >= 0 <==> Beyond(r, p, up)
  {
    var t := if up then r else Negated(r);
    NegatedDot(r, Homog(p), |r|);
    ConstantDot(t, Homog(p), -1, |r|);
  }

  // ---------------------------------------------------------------- the tableau

  /** The tableau as its users see it: a set of integer points with a known
      member, a membership test, and an integer solver.  The solver may answer
      differently at every call; it must only be correct. */
  class Tab {
    const dim: nat
    const member: seq<int> -> bool
    const solver: (nat, Row) -> Option<seq<int>>
    const sample: seq<int>
    var queries: nat
    ghost var points: iset<seq<int>>

    ghost predicate Valid()
      reads this
    {
      && sample in points
      && (forall p | p in points :: |p| == dim)
      && (forall p :: member(p) <==> p in points)
      && (forall k, r | |r| == dim + 1 :: SolverCorrect(solver(k, r), r, points))
    }

    constructor (dim: nat, member: seq<int> -> bool, solver: (nat, Row) -> Option<seq<int>>,
                 sample: seq<int>, ghost points: iset<seq<int>>)
      requires sample in points && forall p | p in points :: |p| == dim
      requires forall p :: member(p) <==> p in points
      requires forall k, r | |r| == dim + 1 :: SolverCorrect(solver(k, r), r, points)
      ensures Valid() && this.points == points && this.dim == dim && this.sample == sample
    {
      this.dim, this.member, this.solver := dim, member, solver;
      this.sample, this.queries, this.points := sample, 0, points;
    }

    /** An integer point of the tableau with r >= 0, if there is one. */
    method SampleWith(r: Row) returns (p: Option<seq<int>>)
      requires Valid() && |r| == dim + 1
      modifies this`queries
      ensures Valid() && points == old(points)
      ensures SolverCorrect(p, r, points)
    {
      p := solver(queries, r);
      queries := queries + 1;
    }

    /** `isl_tab_add_eq`; callers only add equalities that hold on all points. */
    method AddEq(r: Row)
      requires Valid() && |r| == dim + 1
      requires forall p | p in points :: ValueAt(r, p) == 0
      modifies this`points
      ensures Valid() && points == old(points)
    {
      points := iset p | p in points && ValueAt(r, p) == 0;
    }
  }

  ghost predicate SolverCorrect(a: Option<seq<int>>, r: Row, points: iset<seq<int>>) {
    match a
    case Some(p) => p in points && |r| == |p| + 1 && ValueAt(r, p) >= 0
    case None => forall p | p in points :: |r| == |p| + 1 ==> ValueAt(r, p) < 0
  }

  /** The second half of `outside_point`: the equality is negated and shifted in
      place, handed to the solver as an inequality, and restored. */
  method SolveBeyond(tab: Tab, hull: BasicSet, j: nat, up: bool) returns (p: Option<seq<int>>)
    requires tab.Valid() && hull.Valid() && hull.width == tab.dim + 1 && j < hull.nEq
    modifies tab`queries, hull.eq
    ensures tab.Valid() && tab.points == old(tab.points) && hull.Valid()
    ensures hull.eq[..] == old(hull.eq[..])
    ensures SolverCorrect(p, Inequality(hull.eq[j], up), tab.points)
  {
    ghost var E := hull.eq[..];
    ShiftRow(hull, j, !up, -1, false);
    assert hull.eq[j] == Inequality(E[j], up);
    p := tab.SampleWith(hull.eq[j]);
    Restored(E[j], up);
    ShiftRow(hull, j, false, 1, !up);
    assert hull.eq[..] == E;
  }

  /** Negate row j if asked, add c to its constant, and negate it again if asked. */
  method ShiftRow(hull: BasicSet, j: nat, before: bool, c: int, after: bool)
    requires hull.Valid() && hull.width > 0 && j < hull.nEq
    modifies hull.eq
    ensures hull.Valid() && hull.eq[..] == old(hull.eq[..])[j := ShiftedRow(old(hull.eq[j]), before, c, after)]
  {
    if before {
      hull.eq[j] := Negated(hull.eq[j]);
    }
    hull.eq[j] := hull.eq[j][0 := hull.eq[j][0] + c];
    if after {
      hull.eq[j] := Negated(hull.eq[j]);
    }
  }

  function ShiftedRow(r: Row, before: bool, c: int, after: bool): (s: Row)
    requires |r| > 0
    ensures |s| == |r|
  {
    var t := if before then Negated(r) else r;
    var u := t[0 := t[0] + c];
    if after then Negated(u) else u
  }

  /** `outside_point` for the equality at position j of hull: a point of the
      tableau beyond it, or the guarantee that there is none. */
  method OutsidePoint(tab: Tab, hull: BasicSet, j: nat, up: bool) returns (p: Option<seq<int>>)
    requires tab.Valid() && hull.Valid() && hull.width == tab.dim + 1 && j < hull.nEq
    requires ValueAt(hull.eq[j], tab.sample) == 0 && Lead(hull.eq[j]) >= 1
    modifies tab`queries, hull.eq
    ensures tab.Valid() && tab.points == old(tab.points) && hull.Valid()
    ensures hull.eq[..] == old(hull.eq[..])
    ensures p.Some? ==> p.value in tab.points && |p.value| == tab.dim && Beyond(hull.eq[j], p.value, up)
    ensures p.None? ==> forall q | q in tab.points :: !Beyond(hull.eq[j], q, up)
    ensures var near := Shifted(tab.sample, hull.eq[j], if up then 1 else -1);
      near in tab.points ==> p == Some(near)
  {
    ghost var e := hull.eq[j];
    var candidate := Shifted(tab.sample, hull.eq[j], if up then 1 else -1);
    if tab.member(candidate) {
      ShiftedValue(e, tab.sample, up);
      return Some(candidate);
    }
    p := SolveBeyond(tab, hull, j, up);
    assert hull.eq[..][j] == e;
    SolverAnswer(p, e, tab.points, tab.dim, up);
  }

  lemma SolverAnswer(p: Option<seq<int>>, e: Row, points: iset<seq<int>>, dim: nat, up: bool)
    requires |e| == dim + 1 && (forall q | q in points :: |q| == dim)
    requires SolverCorrect(p, Inequality(e, up), points)
    ensures p.Some? ==> p.value in points && |p.value| == dim && Beyond(e, p.value, up)
    ensures p.None? ==> forall q | q in points :: !Beyond(e, q, up)
  {
    forall q | q in points ensures ValueAt(Inequality(e, up), q) >= 0 <==> Beyond(e, q, up) {
      InequalityValue(e, q, up);
    }
  }

  // ---------------------------------------------------------------- under-approximations

  /** v holds at every point of S. */
  ghost predicate HoldsOnPoints(v: Vec, S: iset<seq<int>>) {
    forall p | p in S :: HoldsAt(v, p)
  }

  /** H contains the known point s and implies every equality that holds on S. */
  ghost predicate Under(H: seq<Row>, w: nat, S: iset<seq<int>>, s: seq<int>) {
    && Echelon(H, w) && Contains(H, w, s)
    && (forall v: Vec | |v| == w && HoldsOnPoints(v, S) :: InSpan(v, H, w))
  }

  /** H1 implies no more than H, and as much as H when no row was lost. */
  ghost predicate Grown(H: seq<Row>, H1: seq<Row>, w: nat) {
    Weakened(H, H1, w) && forall v :: InSpan(v, H1, w) ==> InSpan(v, H, w)
  }

  lemma UnderFeasible(H: seq<Row>, w: nat, S: iset<seq<int>>, s: seq<int>)
    requires Under(H, w, S, s)
    ensures Feasible(H, w) && |H| <= w - 1
    ensures forall j | 0 <= j < |H| :: |H[j]| == |s| + 1 && ValueAt(H[j], s) == 0
  {
    SolvableFeasible(H, w, Lift(Homog(s)));
    FeasibleSize(H, w);
    forall j | 0 <= j < |H| ensures |H[j]| == |s| + 1 && ValueAt(H[j], s) == 0 {
      assert Vanishes(Lift(H[j]), Lift(Homog(s)), w);
      HoldsAtInt(H[j], s);
    }
  }

  /** Joining a point of S keeps an under-approximation and adds exactly that point's equalities. */
  lemma AddPoint(H: seq<Row>, H1: seq<Row>, w: nat, S: iset<seq<int>>, s: seq<int>, p: seq<int>, empty: bool)
    requires Under(H, w, S, s) && p in S && w == |p| + 1
    requires Joined(H, PointRows(p), H1, w, empty)
    ensures Under(H1, w, S, s) && Grown(H, H1, w) && Contains(H1, w, p)
    ensures forall v :: InSpan(v, H1, w) <==> InSpan(v, H, w) && HoldsAt(v, p)
  {
    assert !empty;
    JoinedContains(H, PointRows(p), H1, w, empty, s);
    PointSpan(p, Lift(Homog(p)));
    JoinedContains(H, PointRows(p), H1, w, empty, p);
    forall v: Vec | |v| == w ensures InSpan(v, PointRows(p), w) <==> HoldsAt(v, p) { PointSpan(p, v); }
    forall v: Vec | |v| == w && HoldsOnPoints(v, S) ensures InSpan(v, H1, w) {
      assert HoldsAt(v, p);
    }
  }

  lemma GrownTransitive(H: seq<Row>, H1: seq<Row>, H2: seq<Row>, w: nat)
    requires Grown(H, H1, w) && Grown(H1, H2, w)
    ensures Grown(H, H2, w)
  {
    WeakenedTransitive(H, H1, H2, w);
  }

  /** A new point that violates an equality of the hull costs it at least one equality. */
  lemma NewPointLosesRow(H: seq<Row>, H1: seq<Row>, w: nat, p: seq<int>, j: nat)
    requires Matrix(H, w) && j < |H| && |H[j]| == |p| + 1 && ValueAt(H[j], p) != 0
    requires Grown(H, H1, w) && forall v :: InSpan(v, H1, w) ==> HoldsAt(v, p)
    ensures |H1| < |H|
  {
    RowInSpan(H, w, j);
    HoldsAtInt(H[j], p);
  }

  /** When every equality of an under-approximation holds on S, it is the affine hull of S. */
  lemma UnderAndAbove(H: seq<Row>, w: nat, S: iset<seq<int>>, s: seq<int>)
    requires Under(H, w, S, s) && HoldUpTo(H, |H|, S) && forall p | p in S :: |p| + 1 == w
    ensures IsHullOf(H, w, S)
  {
    forall p | p in S ensures Contains(H, w, p) {
      forall j | 0 <= j < |H| ensures Vanishes(Lift(H[j]), Lift(Homog(p)), w) { HoldsAtInt(H[j], p); }
    }
    forall v: Vec | |v| == w ensures InSpan(v, H, w) <==> HoldsOnPoints(v, S) {
      if InSpan(v, H, w) {
        forall p | p in S ensures HoldsAt(v, p) { SpanHoldsAt(v, H, w, p); }
      }
    }
  }

  /** H is in reduced echelon form and implies exactly the equalities that hold on S. */
  ghost predicate IsHullOf(H: seq<Row>, w: nat, S: iset<seq<int>>) {
    && Echelon(H, w)
    && (forall p | p in S :: Contains(H, w, p))
    && (forall v: Vec | |v| == w :: InSpan(v, H, w) <==> HoldsOnPoints(v, S))
  }

  // ---------------------------------------------------------------- the loops

  /** `affine_hull(hull, isl_basic_set_from_vec(p))` */
  method JoinPoint(hull: BasicSet, p: seq<int>, ghost S: iset<seq<int>>, ghost s: seq<int>)
    requires hull.Valid() && hull.width == |p| + 1
    requires Under(hull.Rows(), hull.width, S, s) && p in S
    modifies hull`nEq, hull.eq
    ensures hull.Valid() && Under(hull.Rows(), hull.width, S, s)
    ensures Grown(old(hull.Rows()), hull.Rows(), hull.width) && Contains(hull.Rows(), hull.width, p)
    ensures forall v :: InSpan(v, hull.Rows(), hull.width) <==>
                        InSpan(v, old(hull.Rows()), hull.width) && HoldsAt(v, p)
  {
    ghost var H := hull.Rows();
    PointRowsFeasible(p);
    var point := new BasicSet(PointRows(p), |p| + 1, false);
    var empty := AffineHull(hull, point);
    AddPoint(H, hull.Rows(), hull.width, S, s, p, empty);
  }

  /** `adjacent_point` */
  method AdjacentPoint(el: array<int>, pos: nat, up: bool)
    requires pos < el.Length
    modifies el
    ensures el[..] == old(el[..])[pos := old(el[pos]) + if up then 1 else -1]
  {
    if up {
      el[pos] := el[pos] + 1;
    } else {
      el[pos] := el[pos] - 1;
    }
  }

  function Neighbour(p: seq<int>, i: nat, up: bool): (q: seq<int>)
    requires i < |p|
    ensures |q| == |p|
  {
    p[i := p[i] + if up then 1 else -1]
  }

  /** The test of a point against the rows. */
  lemma RowsTested(H: seq<Row>, w: nat, p: seq<int>)
    requires Matrix(H, w) && w == |p| + 1
    ensures Contains(H, w, p) <==> forall j | 0 <= j < |H| :: ValueAt(H[j], p) == 0
  {
    forall j | 0 <= j < |H| ensures Vanishes(Lift(H[j]), Lift(Homog(p)), w) <==> ValueAt(H[j], p) == 0 {
      HoldsAtInt(H[j], p);
    }
  }

  lemma GrownSame(H: seq<Row>, w: nat)
    requires Matrix(H, w)
    ensures Grown(H, H, w)
  {
  }

  /** H1 implies what H implies and what holds at q, or is H where there is no q. */
  ghost predicate Joins(H: seq<Row>, H1: seq<Row>, w: nat, q: Option<seq<int>>) {
    match q
    case None => H1 == H
    case Some(p) => forall v :: InSpan(v, H1, w) <==> InSpan(v, H, w) && HoldsAt(v, p)
  }

  /** The neighbour, if it is to be added. */
  ghost function Fresh(H: seq<Row>, w: nat, S: iset<seq<int>>, q: seq<int>): Option<seq<int>> {
    if q in S && !Contains(H, w, q) then Some(q) else None
  }

  /** The neighbour added in dimension i: the one below, or else the one above. */
  ghost function FreshAt(H: seq<Row>, w: nat, S: iset<seq<int>>, p: seq<int>, i: nat): Option<seq<int>>
    requires i < |p|
  {
    var below := Fresh(H, w, S, Neighbour(p, i, false));
    if below.Some? then below else Fresh(H, w, S, Neighbour(p, i, true))
  }

  lemma GrownContains(H: seq<Row>, H1: seq<Row>, w: nat, p: seq<int>)
    requires Grown(H, H1, w) && Matrix(H1, w) && Contains(H, w, p)
    ensures Contains(H1, w, p)
  {
    ImpliedContains(H, H1, w, p);
  }

  /** For every dimension below n, a neighbour below p that is in S is in H, and
      so is a neighbour above p unless the one below was taken instead. */
  ghost predicate NeighboursJoined(H: seq<Row>, w: nat, S: iset<seq<int>>, p: seq<int>, n: nat)
    requires n <= |p|
  {
    forall i | 0 <= i < n ::
      && (Neighbour(p, i, false) in S ==> Contains(H, w, Neighbour(p, i, false)))
      && (Neighbour(p, i, true) in S ==>
            Contains(H, w, Neighbour(p, i, true)) ||
            (Neighbour(p, i, false) in S && Contains(H, w, Neighbour(p, i, false))))
  }

  lemma NeighboursKept(H: seq<Row>, H1: seq<Row>, w: nat, S: iset<seq<int>>, p: seq<int>, n: nat)
    requires n <= |p| && NeighboursJoined(H, w, S, p, n) && Grown(H, H1, w) && Matrix(H1, w)
    ensures NeighboursJoined(H1, w, S, p, n)
  {
    forall q | Contains(H, w, q) ensures Contains(H1, w, q) { GrownContains(H, H1, w, q); }
  }

  /** A point is tested against hull and set, and joined when it belongs to the set only. */
  method TryPoint(hull: BasicSet, p: seq<int>, member: seq<int> -> bool, ghost S: iset<seq<int>>, ghost s: seq<int>)
    returns (added: bool)
    requires hull.Valid() && hull.width == |p| + 1 && Under(hull.Rows(), hull.width, S, s)
    requires forall p :: member(p) <==> p in S
    modifies hull`nEq, hull.eq
    ensures hull.Valid() && Under(hull.Rows(), hull.width, S, s) && Grown(old(hull.Rows()), hull.Rows(), hull.width)
    ensures added || p in S ==> Contains(hull.Rows(), hull.width, p)
    ensures added <==> Fresh(old(hull.Rows()), hull.width, S, p).Some?
    ensures Joins(old(hull.Rows()), hull.Rows(), hull.width, Fresh(old(hull.Rows()), hull.width, S, p))
  {
    RowsTested(hull.Rows(), hull.width, p);
    hide Contains, Under, Grown;
    added := forall j | 0 <= j < hull.nEq :: ValueAt(hull.eq[j], p) == 0;
    GrownSame(hull.Rows(), hull.width);
    if added {
      return false;
    }
    added := member(p);
    if added {
      JoinPoint(hull, p, S, s);
    }
  }

  /** One neighbour of `add_adjacent_points`: el is moved, tried, and moved back. */
  method TryNeighbour(hull: BasicSet, el: array<int>, i: nat, up: bool, member: seq<int> -> bool,
                      ghost S: iset<seq<int>>, ghost s: seq<int>) returns (added: bool)
    requires hull.Valid() && hull.width == el.Length + 1 && i < el.Length
    requires Under(hull.Rows(), hull.width, S, s)
    requires forall p :: member(p) <==> p in S
    modifies hull`nEq, hull.eq, el
    ensures hull.Valid() && el[..] == old(el[..])
    ensures Under(hull.Rows(), hull.width, S, s) && Grown(old(hull.Rows()), hull.Rows(), hull.width)
    ensures added || Neighbour(el[..], i, up) in S ==> Contains(hull.Rows(), hull.width, Neighbour(el[..], i, up))
    ensures added <==> Fresh(old(hull.Rows()), hull.width, S, Neighbour(el[..], i, up)).Some?
    ensures Joins(old(hull.Rows()), hull.Rows(), hull.width, Fresh(old(hull.Rows()), hull.width, S, Neighbour(el[..], i, up)))
  {
    hide Contains, Under, Grown, Joins, Fresh;
    ghost var original := el[..];
    AdjacentPoint(el, i, up);
    var p := el[..];
    assert p == Neighbour(original, i, up) && p[i := original[i]] == original;
    added := TryPoint(hull, p, member, S, s);
    AdjacentPoint(el, i, !up);
  }

  /** Both neighbours in dimension i, the lower one first; the upper one is
      skipped when the lower one was added. */
  method TryNeighbours(hull: BasicSet, el: array<int>, i: nat, member: seq<int> -> bool,
                       ghost S: iset<seq<int>>, ghost s: seq<int>)
    requires hull.Valid() && hull.width == el.Length + 1 && i < el.Length
    requires Under(hull.Rows(), hull.width, S, s) && NeighboursJoined(hull.Rows(), hull.width, S, el[..], i)
    requires forall p :: member(p) <==> p in S
    modifies hull`nEq, hull.eq, el
    ensures hull.Valid() && el[..] == old(el[..])
    ensures Under(hull.Rows(), hull.width, S, s) && Grown(old(hull.Rows()), hull.Rows(), hull.width)
    ensures NeighboursJoined(hull.Rows(), hull.width, S, el[..], i + 1)
    ensures Joins(old(hull.Rows()), hull.Rows(), hull.width, FreshAt(old(hull.Rows()), hull.width, S, el[..], i))
  {
    hide Contains, Under, Grown, Joins, Fresh, FreshAt, NeighboursJoined;
    ghost var H, w, p := hull.Rows(), hull.width, el[..];
    var added := TryNeighbour(hull, el, i, false, member, S, s);
    ghost var H1 := hull.Rows();
    if !added {
      added := TryNeighbour(hull, el, i, true, member, S, s);
      NextWithUpper(H, H1, hull.Rows(), w, S, p, i);
    } else {
      NextWithLower(H, H1, w, S, p, i);
    }
  }

  lemma NextWithLower(H: seq<Row>, H1: seq<Row>, w: nat, S: iset<seq<int>>, p: seq<int>, i: nat)
    requires i < |p| && NeighboursJoined(H, w, S, p, i) && Grown(H, H1, w) && Matrix(H1, w)
    requires Fresh(H, w, S, Neighbour(p, i, false)).Some? && Contains(H1, w, Neighbour(p, i, false))
    requires Joins(H, H1, w, Fresh(H, w, S, Neighbour(p, i, false)))
    ensures NeighboursJoined(H1, w, S, p, i + 1) && Joins(H, H1, w, FreshAt(H, w, S, p, i))
  {
    NeighboursKept(H, H1, w, S, p, i);
    hide Contains, Grown, Joins, InSpan;
  }

  lemma NextWithUpper(H: seq<Row>, H1: seq<Row>, H2: seq<Row>, w: nat, S: iset<seq<int>>, p: seq<int>, i: nat)
    requires i < |p| && NeighboursJoined(H, w, S, p, i) && Grown(H, H1, w) && Grown(H1, H2, w)
    requires Matrix(H1, w) && Matrix(H2, w)
    requires Fresh(H, w, S, Neighbour(p, i, false)).None? && Joins(H, H1, w, None)
    requires Neighbour(p, i, false) in S ==> Contains(H1, w, Neighbour(p, i, false))
    requires Neighbour(p, i, true) in S ==> Contains(H2, w, Neighbour(p, i, true))
    requires Joins(H1, H2, w, Fresh(H1, w, S, Neighbour(p, i, true)))
    ensures NeighboursJoined(H2, w, S, p, i + 1) && Grown(H, H2, w) && Joins(H, H2, w, FreshAt(H, w, S, p, i))
  {
    NeighboursKept(H, H1, w, S, p, i);
    NeighboursKept(H1, H2, w, S, p, i);
    GrownTransitive(H, H1, H2, w);
    if Neighbour(p, i, false) in S { GrownContains(H1, H2, w, Neighbour(p, i, false)); }
    assert H1 == H;
    hide Contains, Grown, Joins, InSpan;
  }

  /** `add_adjacent_points`: also join neighbours of sample that belong to the
      set and not yet to the hull, at most one per dimension. */
  method AddAdjacentPoints(hull: BasicSet, sample: seq<int>, member: seq<int> -> bool,
                           ghost S: iset<seq<int>>, ghost s: seq<int>)
    requires hull.Valid() && hull.width == |sample| + 1
    requires Under(hull.Rows(), hull.width, S, s)
    requires forall p :: member(p) <==> p in S
    modifies hull`nEq, hull.eq
    ensures hull.Valid() && Under(hull.Rows(), hull.width, S, s)
    ensures Grown(old(hull.Rows()), hull.Rows(), hull.width)
    ensures NeighboursJoined(hull.Rows(), hull.width, S, sample, |sample|)
  {
    ghost var H := hull.Rows();
    var el := new int[|sample|](k requires 0 <= k < |sample| => sample[k]);
    var i := 0;
    while i < |sample|
      invariant 0 <= i <= |sample| && el[..] == sample && hull.Valid()
      invariant Under(hull.Rows(), hull.width, S, s) && Grown(H, hull.Rows(), hull.width)
      invariant NeighboursJoined(hull.Rows(), hull.width, S, sample, i)
    {
      ghost var H1 := hull.Rows();
      TryNeighbours(hull, el, i, member, S, s);
      GrownTransitive(H, H1, hull.Rows(), hull.width);
      i := i + 1;
    }
  }

  /** A point above the equality at position j, else one below it, else the
      equality is added to the tableau, which has it already. */
  method TestEquality(tab: Tab, hull: BasicSet, j: nat) returns (p: Option<seq<int>>)
    requires tab.Valid() && hull.Valid() && hull.width == tab.dim + 1 && j < hull.nEq
    requires ValueAt(hull.eq[j], tab.sample) == 0 && Lead(hull.eq[j]) >= 1
    modifies tab`queries, tab`points, hull.eq
    ensures tab.Valid() && tab.points == old(tab.points) && hull.Valid()
    ensures hull.eq[..] == old(hull.eq[..])
    ensures p.Some? ==> p.value in tab.points && |p.value| == tab.dim && ValueAt(hull.eq[j], p.value) != 0
    ensures p.None? ==> forall q | q in tab.points :: ValueAt(hull.eq[j], q) == 0
    ensures p.Some? && !Beyond(hull.eq[j], p.value, true) ==> forall q | q in tab.points :: !Beyond(hull.eq[j], q, true)
  {
    ghost var e := hull.eq[j];
    p := OutsidePoint(tab, hull, j, true);
    assert hull.eq[..][j] == e;
    if p.Some? {
      return;
    }
    p := OutsidePoint(tab, hull, j, false);
    assert hull.eq[..][j] == e;
    if p.Some? {
      return;
    }
    tab.AddEq(hull.eq[j]);
  }

  /** The first n equalities involve a variable and hold at s. */
  ghost predicate ReadyRows(E: seq<Row>, n: nat, s: seq<int>) {
    n <= |E| && forall k | 0 <= k < n :: |E[k]| == |s| + 1 && ValueAt(E[k], s) == 0 && Lead(E[k]) >= 1
  }

  /** The first n equalities hold on S. */
  ghost predicate HoldUpTo(E: seq<Row>, n: nat, S: iset<seq<int>>) {
    n <= |E| && forall q, k | q in S && 0 <= k < n :: |E[k]| == |q| + 1 && ValueAt(E[k], q) == 0
  }

  lemma UnderReady(E: seq<Row>, n: nat, w: nat, S: iset<seq<int>>, s: seq<int>)
    requires n <= |E| && Under(E[..n], w, S, s)
    ensures ReadyRows(E, n, s)
  {
    UnderFeasible(E[..n], w, S, s);
    forall k | 0 <= k < n ensures |E[k]| == |s| + 1 && ValueAt(E[k], s) == 0 && Lead(E[k]) >= 1 {
      assert E[..n][k] == E[k];
    }
  }

  lemma HoldStep(E: seq<Row>, j: nat, S: iset<seq<int>>, dim: nat)
    requires j < |E| && HoldUpTo(E, j, S) && |E[j]| == dim + 1
    requires forall q | q in S :: |q| == dim && ValueAt(E[j], q) == 0
    ensures HoldUpTo(E, j + 1, S)
  {
  }

  /** The inner loop of `extend_affine_hull`: a point outside one of the
      equalities, or the guarantee that all of them hold on the whole set. */
  method FindOutside(tab: Tab, hull: BasicSet) returns (j: nat, p: Option<seq<int>>)
    requires tab.Valid() && hull.Valid() && hull.width == tab.dim + 1
    requires Under(hull.Rows(), hull.width, tab.points, tab.sample)
    modifies tab`queries, tab`points, hull.eq
    ensures tab.Valid() && tab.points == old(tab.points) && hull.Valid() && hull.eq[..] == old(hull.eq[..])
    ensures j <= hull.nEq && (p.None? <==> j == hull.nEq)
    ensures p.Some? ==> p.value in tab.points && |p.value| == tab.dim && ValueAt(hull.eq[j], p.value) != 0
    ensures HoldUpTo(hull.eq[..], j, tab.points)
  {
    ghost var E, S := hull.eq[..], tab.points;
    UnderReady(E, hull.nEq, hull.width, tab.points, tab.sample);
    j := 0;
    while j < hull.nEq
      invariant 0 <= j <= hull.nEq && tab.Valid() && tab.points == S && hull.Valid() && hull.eq[..] == E
      invariant HoldUpTo(E, j, S)
    {
      assert hull.eq[j] == E[j];
      p := TestEquality(tab, hull, j);
      if p.Some? {
        return;
      }
      HoldStep(E, j, S, tab.dim);
      j := j + 1;
    }
    p := None;
  }

  /** The end of a pass: join the point found, after its neighbours if asked
      for.  The hull loses at least one equality. */
  method JoinFound(hull: BasicSet, p: seq<int>, member: seq<int> -> bool, useMember: bool,
                   ghost S: iset<seq<int>>, ghost s: seq<int>, ghost j: nat)
    requires hull.Valid() && hull.width == |p| + 1 && j < hull.nEq
    requires Under(hull.Rows(), hull.width, S, s) && p in S && ValueAt(hull.eq[j], p) != 0
    requires forall q :: member(q) <==> q in S
    modifies hull`nEq, hull.eq
    ensures hull.Valid() && Under(hull.Rows(), hull.width, S, s) && hull.nEq < old(hull.nEq)
    ensures Contains(hull.Rows(), hull.width, p) && Grown(old(hull.Rows()), hull.Rows(), hull.width)
    ensures useMember ==> NeighboursJoined(hull.Rows(), hull.width, S, p, |p|)
    ensures !useMember ==> Joins(old(hull.Rows()), hull.Rows(), hull.width, Some(p))
  {
    ghost var H, w := hull.Rows(), hull.width;
    assert H[j] == hull.eq[j];
    if useMember {
      AddAdjacentPoints(hull, p, member, S, s);
    }
    ghost var H1 := hull.Rows();
    JoinPoint(hull, p, S, s);
    GrownTransitive(H, H1, hull.Rows(), w);
    NewPointLosesRow(H, hull.Rows(), w, p, j);
    if useMember { NeighboursKept(H1, hull.Rows(), w, S, p, |p|); }
  }

  /** `extend_affine_hull`: the passes end with the affine hull of the points of
      the tableau, whether a pass finds nothing outside or all passes are used. */
  method ExtendAffineHull(tab: Tab, hull: BasicSet, useMember: bool)
    requires tab.Valid() && hull.Valid() && hull.width == tab.dim + 1
    requires Under(hull.Rows(), hull.width, tab.points, tab.sample)
    modifies tab`queries, tab`points, hull`nEq, hull.eq
    ensures hull.Valid() && tab.points == old(tab.points)
    ensures IsHullOf(hull.Rows(), hull.width, tab.points)
  {
    ghost var S, w := tab.points, hull.width;
    UnderFeasible(hull.Rows(), w, S, tab.sample);
    var i := 0;
    while i < tab.dim
      invariant 0 <= i <= tab.dim && tab.Valid() && tab.points == S && hull.Valid()
      invariant Under(hull.Rows(), w, S, tab.sample)
      invariant hull.nEq + i <= tab.dim
    {
      ghost var H := hull.Rows();
      var j, sample := FindOutside(tab, hull);
      assert hull.Rows() == H;
      if j == hull.nEq {
        UnderAndAbove(H, w, S, tab.sample);
        return;
      }
      JoinFound(hull, sample.value, tab.member, useMember, S, tab.sample, j);
      i := i + 1;
    }
    UnderAndAbove(hull.Rows(), w, S, tab.sample);
  }
}
