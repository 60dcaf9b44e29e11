/** Piecewise quasi-affine expressions of isl, each a list of cells with their
    expressions, and the operations on them. The cells never overlap, and every
    operation is described by the value it gives at each integer point.

    A region is a union of conjunctions of inequalities `a >= 0`. */
module Piecewise {
  import opened Wrappers
  import opened IntArith
  import opened LinearAlgebra
  import opened Points
  import opened QuasiAffine
  import opened AffSum

  type Region = seq<seq<Aff>>

  /** One cell; a zero denominator stands for NaN. */
  datatype Piece = Piece(dom: Region, aff: Aff)

  type Pw = seq<Piece>

  datatype Outcome = Undefined | NaN | Number(v: real)

  // ---------------------------------------------------------------- meaning

  ghost predicate ValidBasic(b: seq<Aff>, n: nat) {
    forall l | 0 <= l < |b| :: b[l].Valid(n)
  }

  ghost predicate ValidRegion(s: Region, n: nat) {
    forall k | 0 <= k < |s| :: ValidBasic(s[k], n)
  }

  ghost predicate Meets(b: seq<Aff>, x: seq<int>)
    requires ValidBasic(b, |x|)
  {
    forall l | 0 <= l < |b| :: Val(b[l], x) >= 0.0
  }

  ghost predicate In(s: Region, x: seq<int>)
    requires ValidRegion(s, |x|)
  {
    exists k :: 0 <= k < |s| && Meets(s[k], x)
  }

  ghost predicate ValidBase(e: Aff, n: nat) {
    e.denom == 0 || e.Valid(n)
  }

  ghost function BaseAt(e: Aff, x: seq<int>): Outcome
    requires ValidBase(e, |x|)
  {
    if e.denom == 0 then NaN else Number(Val(e, x))
  }

  ghost predicate ValidPiece(p: Piece, n: nat) {
    ValidRegion(p.dom, n) && ValidBase(p.aff, n)
  }

  ghost predicate ValidPw(p: Pw, n: nat) {
    forall k | 0 <= k < |p| :: ValidPiece(p[k], n)
  }

  ghost function PieceAt(p: Piece, x: seq<int>): Outcome
    requires ValidPiece(p, |x|)
  {
    if In(p.dom, x) then BaseAt(p.aff, x) else Undefined
  }

  /** The value at x, given by a piece whose cell holds x. */
  ghost function At(p: Pw, x: seq<int>): (o: Outcome)
    requires ValidPw(p, |x|)
  {
    if p == [] then Undefined
    else
      var k := |p| - 1;
      var o := At(p[..k], x);
      if o.Undefined? then PieceAt(p[k], x) else o
  }

  /** No point lies in two cells. */
  ghost predicate Disjoint(p: Pw, n: nat)
    requires ValidPw(p, n)
  {
    forall k, l, x: seq<int> | 0 <= k < l < |p| && |x| == n :: Apart(p[k], p[l], x)
  }

  ghost predicate Apart(p: Piece, q: Piece, x: seq<int>)
    requires ValidPiece(p, |x|) && ValidPiece(q, |x|)
  {
    !(In(p.dom, x) && In(q.dom, x))
  }

  lemma AtExtended(p: Pw, c: Piece, x: seq<int>)
    requires ValidPw(p, |x|) && ValidPiece(c, |x|)
    ensures ValidPw(p + [c], |x|)
    ensures At(p + [c], x) == if At(p, x).Undefined? then PieceAt(c, x) else At(p, x)
  {
    hide ValidPiece, PieceAt;
    assert (p + [c])[..|p|] == p;
  }

  /** A point is outside every cell exactly when the value is undefined. */
  lemma {:induction false} AtUndefined(p: Pw, x: seq<int>)
    requires ValidPw(p, |x|)
    ensures At(p, x).Undefined? <==> forall k | 0 <= k < |p| :: !In(p[k].dom, x)
    decreases |p|
  {
    if p != [] {
      AtUndefined(p[..|p| - 1], x);
      assert p == p[..|p| - 1] + [p[|p| - 1]];
    }
  }

  // ---------------------------------------------------------------- regions

  /** Each conjunction of s with each of t. */
  function Shared(s: Region, t: Region): Region {
    if s == [] then []
    else
      var k := |s| - 1;
      Shared(s[..k], t) + SharedRow(s[k], t)
  }

  function SharedRow(b: seq<Aff>, t: Region): Region {
    if t == [] then []
    else
      var k := |t| - 1;
      SharedRow(b, t[..k]) + [b + t[k]]
  }

  /** `isl_set_intersect` */
  method Intersect(s: Region, t: Region, n: nat) returns (r: Region)
    requires ValidRegion(s, n) && ValidRegion(t, n)
    ensures ValidRegion(r, n) && r == Shared(s, t)
    ensures forall x: seq<int> | |x| == n :: In(r, x) <==> In(s, x) && In(t, x)
  {
    hide Meets, ValidBasic, Shared, SharedRow;
    r := [];
    SharedNothing(s, t);
    for i := 0 to |s|
      invariant ValidRegion(r, n) && r == Shared(s[..i], t)
      invariant forall x: seq<int> | |x| == n :: In(r, x) <==> In(s[..i], x) && In(t, x)
    {
      ghost var r0 := r;
      SharedRowNothing(s[i], t);
      for j := 0 to |t|
        invariant ValidRegion(r, n) && r == r0 + SharedRow(s[i], t[..j])
        invariant forall x: seq<int> | |x| == n ::
            In(r, x) <==> In(r0, x) || (Meets(s[i], x) && In(t[..j], x))
      {
        BothValid(s[i], t[j], n);
        forall x: seq<int> | |x| == n
          ensures In(r + [s[i] + t[j]], x)
             <==> In(r0, x) || (Meets(s[i], x) && In(t[..j + 1], x))
        {
          MeetsBoth(s[i], t[j], x);
          InExtended(r, s[i] + t[j], x);
          assert t[..j + 1] == t[..j] + [t[j]];
          InExtended(t[..j], t[j], x);
        }
        SharedRowNext(s[i], t, j);
        r := r + [s[i] + t[j]];
      }
      assert t[..|t|] == t;
      assert s[..i + 1] == s[..i] + [s[i]];
      SharedNext(s, t, i);
      forall x: seq<int> | |x| == n ensures In(r, x) <==> In(s[..i + 1], x) && In(t, x) {
        InExtended(s[..i], s[i], x);
      }
    }
    assert s[..|s|] == s;
  }

  lemma SharedNothing(s: Region, t: Region)
    ensures Shared(s[..0], t) == []
  {
  }

  lemma SharedRowNothing(b: seq<Aff>, t: Region)
    ensures SharedRow(b, t[..0]) == []
  {
  }

  lemma SharedNext(s: Region, t: Region, i: nat)
    requires i < |s|
    ensures Shared(s[..i + 1], t) == Shared(s[..i], t) + SharedRow(s[i], t)
  {
    assert s[..i + 1][..i] == s[..i];
  }

  lemma SharedRowNext(b: seq<Aff>, t: Region, j: nat)
    requires j < |t|
    ensures SharedRow(b, t[..j + 1]) == SharedRow(b, t[..j]) + [b + t[j]]
  {
    assert t[..j + 1][..j] == t[..j];
  }

  lemma BothValid(b: seq<Aff>, c: seq<Aff>, n: nat)
    requires ValidBasic(b, n) && ValidBasic(c, n)
    ensures ValidBasic(b + c, n)
  {
  }

  lemma MeetsBoth(b: seq<Aff>, c: seq<Aff>, x: seq<int>)
    requires ValidBasic(b, |x|) && ValidBasic(c, |x|)
    ensures ValidBasic(b + c, |x|) && (Meets(b + c, x) <==> Meets(b, x) && Meets(c, x))
  {
    hide Val;
    BothValid(b, c, |x|);
    if Meets(b + c, x) {
      forall l | 0 <= l < |b| ensures Val(b[l], x) >= 0.0 { assert (b + c)[l] == b[l]; }
      forall l | 0 <= l < |c| ensures Val(c[l], x) >= 0.0 { assert (b + c)[|b| + l] == c[l]; }
    }
  }

  lemma InExtended(s: Region, b: seq<Aff>, x: seq<int>)
    requires ValidRegion(s, |x|) && ValidBasic(b, |x|)
    ensures ValidRegion(s + [b], |x|) && (In(s + [b], x) <==> In(s, x) || Meets(b, x))
  {
    hide Meets, ValidBasic;
    if In(s, x) {
      var k :| 0 <= k < |s| && Meets(s[k], x);
      assert (s + [b])[k] == s[k];
    }
    if Meets(b, x) { assert (s + [b])[|s|] == b; }
  }

  lemma InUnion(s: Region, t: Region, x: seq<int>)
    requires ValidRegion(s, |x|) && ValidRegion(t, |x|)
    ensures ValidRegion(s + t, |x|) && (In(s + t, x) <==> In(s, x) || In(t, x))
  {
    hide Meets, ValidBasic;
    if In(s, x) {
      var k :| 0 <= k < |s| && Meets(s[k], x);
      assert (s + t)[k] == s[k];
    }
    if In(t, x) {
      var k :| 0 <= k < |t| && Meets(t[k], x);
      assert (s + t)[|s| + k] == t[k];
    }
  }

  /** The domain of a piecewise expression, the union of its cells. */
  method Domain(p: Pw, n: nat) returns (s: Region)
    requires ValidPw(p, n)
    ensures ValidRegion(s, n)
    ensures forall x: seq<int> | |x| == n :: In(s, x) <==> !At(p, x).Undefined?
  {
    hide In, ValidRegion;
    s := [];
    NoRegion(n);
    for i := 0 to |p|
      invariant ValidRegion(s, n)
      invariant forall x: seq<int> | |x| == n :: In(s, x) <==> !At(p[..i], x).Undefined?
    {
      assert p[..i + 1] == p[..i] + [p[i]];
      forall x: seq<int> | |x| == n
        ensures ValidRegion(s + p[i].dom, n)
        ensures In(s + p[i].dom, x) <==> !At(p[..i + 1], x).Undefined?
      {
        InUnion(s, p[i].dom, x);
        AtExtended(p[..i], p[i], x);
      }
      InUnion(s, p[i].dom, Zeroes(n));
      s := s + p[i].dom;
    }
    assert p[..|p|] == p;
  }

  lemma NoRegion(n: nat)
    ensures ValidRegion([], n) && forall x: seq<int> | |x| == n :: !In([], x)
  {
  }

  // ---------------------------------------------------------------- pieces

  /** The value kept where x lies in the region, undefined elsewhere. */
  ghost function Restricted(o: Outcome, inside: bool): Outcome {
    if inside then o else Undefined
  }

  lemma OnlyPiece(p: Pw, i: nat, x: seq<int>)
    requires ValidPw(p, |x|) && Disjoint(p, |x|) && i < |p|
    ensures At(p[..i], x).Undefined? || PieceAt(p[i], x).Undefined?
  {
    hide In, ValidRegion;
    AtUndefined(p[..i], x);
    forall l | 0 <= l < i ensures Apart(p[l], p[i], x) {
    }
  }

  /** `isl_pw_aff_intersect_domain` */
  method IntersectDomain(p: Pw, s: Region, n: nat) returns (r: Pw)
    requires ValidPw(p, n) && ValidRegion(s, n) && Disjoint(p, n)
    ensures ValidPw(r, n) && Disjoint(r, n)
    ensures forall x: seq<int> | |x| == n :: At(r, x) == Restricted(At(p, x), In(s, x))
  {
    hide In, ValidRegion, Disjoint;
    r := [];
    NoPieces(n);
    for i := 0 to |p|
      invariant ValidPw(r, n) && Disjoint(r, n)
      invariant forall x: seq<int> | |x| == n ::
          At(r, x) == Restricted(At(p[..i], x), In(s, x))
    {
      var d := Intersect(p[i].dom, s, n);
      var c := Piece(d, p[i].aff);
      assert p[..i + 1] == p[..i] + [p[i]];
      forall x: seq<int> | |x| == n
        ensures At(r, x).Undefined? || PieceAt(c, x).Undefined?
        ensures At(r + [c], x) == Restricted(At(p[..i + 1], x), In(s, x))
      {
        OnlyPiece(p, i, x);
        AtExtended(r, c, x);
        AtExtended(p[..i], p[i], x);
      }
      DisjointExtended(r, c, n);
      r := r + [c];
    }
    assert p[..|p|] == p;
  }

  lemma NoPieces(n: nat)
    ensures ValidPw([], n) && Disjoint([], n) && forall x: seq<int> | |x| == n :: At([], x).Undefined?
  {
  }

  lemma DisjointExtended(p: Pw, c: Piece, n: nat)
    requires ValidPw(p, n) && ValidPiece(c, n) && Disjoint(p, n)
    requires forall x: seq<int> | |x| == n :: At(p, x).Undefined? || PieceAt(c, x).Undefined?
    ensures ValidPw(p + [c], n) && Disjoint(p + [c], n)
  {
    hide In, ValidRegion;
    forall k, l, x: seq<int> | 0 <= k < l < |p + [c]| && |x| == n
      ensures Apart((p + [c])[k], (p + [c])[l], x)
    {
      if l < |p| {
        assert Apart(p[k], p[l], x);
      } else {
        AtUndefined(p, x);
      }
    }
  }

  /** `isl_pw_aff_add_disjoint`, whose two arguments must not overlap. */
  method AddDisjoint(p: Pw, q: Pw, n: nat) returns (r: Pw)
    requires ValidPw(p, n) && ValidPw(q, n) && Disjoint(p, n) && Disjoint(q, n)
    requires forall x: seq<int> | |x| == n :: At(p, x).Undefined? || At(q, x).Undefined?
    ensures ValidPw(r, n) && Disjoint(r, n)
    ensures forall x: seq<int> | |x| == n ::
        At(r, x) == if At(p, x).Undefined? then At(q, x) else At(p, x)
  {
    hide In, ValidRegion, Disjoint;
    r := p;
    for i := 0 to |q|
      invariant ValidPw(r, n) && Disjoint(r, n)
      invariant forall x: seq<int> | |x| == n ::
          At(r, x) == if At(p, x).Undefined? then At(q[..i], x) else At(p, x)
    {
      assert q[..i + 1] == q[..i] + [q[i]];
      forall x: seq<int> | |x| == n
        ensures At(r, x).Undefined? || PieceAt(q[i], x).Undefined?
        ensures At(r + [q[i]], x) == if At(p, x).Undefined? then At(q[..i + 1], x) else At(p, x)
      {
        OnlyPiece(q, i, x);
        AtUndefined(q, x);
        AtExtended(r, q[i], x);
        AtExtended(q[..i], q[i], x);
      }
      DisjointExtended(r, q[i], n);
      r := r + [q[i]];
    }
    assert q[..|q|] == q;
  }

  lemma NegVal(e: Aff, x: seq<int>)
    requires e.Valid(|x|)
    ensures e.(v := Times(e.v, -1)).Valid(|x|) && Val(e.(v := Times(e.v, -1)), x) == -Val(e, x)
  {
    hide Args;
    var r := e.(v := Times(e.v, -1));
    var a := Args(x, e.divs);
    IDotLinear(e.v, e.v, r.v, -1, 0, a, |e.v|);
    assert Num(r, x) == -Num(e, x);
    NegQuotient(Num(e, x) as real, e.denom as real);
  }

  lemma NegQuotient(a: real, d: real)
    requires d != 0.0
    ensures (-a) / d == -(a / d)
  {
  }

  /** The operations on single base expressions. */
  datatype BaseUnary = Negative | RoundDown | RoundUp

  ghost function Applied(op: BaseUnary, o: Outcome): Outcome {
    if !o.Number? then o
    else match op
      case Negative => Number(-o.v)
      case RoundDown => Number(o.v.Floor as real)
      case RoundUp => Number(Ceiling(o.v) as real)
  }

  /** `isl_aff_neg`, `isl_aff_floor` and `isl_aff_ceil` */
  method ApplyUnary(op: BaseUnary, e: Aff, n: nat) returns (r: Aff)
    requires ValidBase(e, n)
    ensures ValidBase(r, n)
    ensures forall x: seq<int> | |x| == n :: BaseAt(r, x) == Applied(op, BaseAt(e, x))
  {
    hide Val;
    match op
    case Negative =>
      if e.denom == 0 { return e; }
      r := e.(v := Times(e.v, -1));
      NegVal(e, Zeroes(n));
      forall x: seq<int> | |x| == n ensures Val(r, x) == -Val(e, x) { NegVal(e, x); }
    case RoundDown =>
      r := Floor(e, n);
    case RoundUp =>
      r := Ceil(e, n);
  }

  /** `isl_pw_aff_un_op`: the operation on every piece. */
  method UnaryOp(op: BaseUnary, p: Pw, n: nat) returns (r: Pw)
    requires ValidPw(p, n) && Disjoint(p, n)
    ensures ValidPw(r, n) && Disjoint(r, n)
    ensures forall x: seq<int> | |x| == n :: At(r, x) == Applied(op, At(p, x))
  {
    hide In, ValidRegion, Val, Disjoint;
    r := [];
    NoPieces(n);
    for i := 0 to |p|
      invariant ValidPw(r, n) && Disjoint(r, n)
      invariant forall x: seq<int> | |x| == n :: At(r, x) == Applied(op, At(p[..i], x))
    {
      var e := ApplyUnary(op, p[i].aff, n);
      var c := Piece(p[i].dom, e);
      assert p[..i + 1] == p[..i] + [p[i]];
      forall x: seq<int> | |x| == n
        ensures At(r, x).Undefined? || PieceAt(c, x).Undefined?
        ensures At(r + [c], x) == Applied(op, At(p[..i + 1], x))
      {
        OnlyPiece(p, i, x);
        AtExtended(r, c, x);
        AtExtended(p[..i], p[i], x);
      }
      DisjointExtended(r, c, n);
      r := r + [c];
    }
    assert p[..|p|] == p;
  }

  /** The binary operations on base expressions. */
  datatype BaseOp = Sum | Product | Quotient

  /** What an operation makes of two values: nothing where one is undefined, NaN
      where one is NaN or a divisor is zero. */
  ghost function Combined(op: BaseOp, o: Outcome, o': Outcome): Outcome {
    if o.Undefined? || o'.Undefined? then Undefined
    else if o.NaN? || o'.NaN? then NaN
    else match op
      case Sum => Number(o.v + o'.v)
      case Product => Number(o.v * o'.v)
      case Quotient => if o'.v == 0.0 then NaN else Number(o.v / o'.v)
  }

  /** A product needs a constant factor and a quotient a constant divisor. */
  predicate Computable(op: BaseOp, e1: Aff, e2: Aff) {
    e1.denom == 0 || e2.denom == 0 ||
    match op
      case Sum => true
      case Product => e1.IsConstant() || e2.IsConstant()
      case Quotient => e2.IsConstant()
  }

  /** `isl_aff_add`, `isl_aff_mul` and `isl_aff_div`, NaN included. */
  method ApplyBase(op: BaseOp, e1: Aff, e2: Aff, n: nat) returns (r: Option<Aff>)
    requires ValidBase(e1, n) && ValidBase(e2, n)
    ensures r.None? <==> !Computable(op, e1, e2)
    ensures r.Some? ==> ValidBase(r.value, n)
    ensures r.Some? ==>
      forall x: seq<int> | |x| == n :: BaseAt(r.value, x) == Combined(op, BaseAt(e1, x), BaseAt(e2, x))
  {
    hide Val;
    match op
    case Sum =>
      var s := AddAffs(e1, e2, n);
      return Some(s);
    case Product =>
      r := MultiplyBy(e1, e2, n);
    case Quotient =>
      r := DivideBy(e1, e2, n);
      forall x: seq<int> | |x| == n && r.Some?
        ensures BaseAt(r.value, x) == Combined(op, BaseAt(e1, x), BaseAt(e2, x))
      {
        if e2.denom != 0 && e2.IsConstant() { ConstantSign(e2, x); }
        if r.value.denom != 0 { IsFraction(Val(r.value, x), Val(e1, x), Val(e2, x)); }
      }
  }

  lemma ConstantSign(e: Aff, x: seq<int>)
    requires e.Valid(|x|) && e.IsConstant()
    ensures Val(e, x) == 0.0 <==> e.v[0] == 0
  {
    ConstantVal(e, x);
    if e.v[0] != 0 { NonZeroVal(e, x); }
  }

  lemma IsFraction(q: real, a: real, b: real)
    requires b != 0.0 && q * b == a
    ensures q == a / b
  {
    assert (a / b) * b == a;
    CancelReal(q, a / b, b);
  }

  /** `isl_set_plain_is_empty`, a test that may miss empty regions. */
  ghost predicate PlainTest(plain: Region -> bool, n: nat) {
    forall s | ValidRegion(s, n) && plain(s) :: Vacant(s, n)
  }

  ghost predicate Vacant(s: Region, n: nat)
    requires ValidRegion(s, n)
  {
    forall x: seq<int> | |x| == n :: !In(s, x)
  }

  lemma NoConjunction(n: nat)
    ensures PlainTest(IsNothing, n)
  {
  }

  predicate IsNothing(s: Region) {
    s == []
  }

  /** A pair of pieces that is skipped or can be computed. */
  predicate PairFits(op: BaseOp, c: Piece, d: Piece, plain: Region -> bool) {
    plain(Shared(c.dom, d.dom)) || Computable(op, c.aff, d.aff)
  }

  /** `isl_pw_aff_on_shared_domain`: the operation on all pairs of pieces, each on
      its shared cell unless that is plainly empty; no result when a pair is not
      computable. */
  method OnSharedDomain(op: BaseOp, p: Pw, q: Pw, n: nat, plain: Region -> bool) returns (r: Option<Pw>)
    requires ValidPw(p, n) && ValidPw(q, n) && Disjoint(p, n) && Disjoint(q, n) && PlainTest(plain, n)
    ensures r.None? <==> exists i, j :: 0 <= i < |p| && 0 <= j < |q| && !PairFits(op, p[i], q[j], plain)
    ensures r.Some? ==> ValidPw(r.value, n) && Disjoint(r.value, n)
    ensures r.Some? ==>
      forall x: seq<int> | |x| == n :: At(r.value, x) == Combined(op, At(p, x), At(q, x))
  {
    hide In, ValidRegion, Val, Disjoint, Computable, Shared, PieceAt, BaseAt, InRow, Combined, At;
    var res: Pw := [];
    NoPieces(n);
    NoRows(op, p, q, n);
    for i := 0 to |p|
      invariant ValidPw(res, n) && Disjoint(res, n)
      invariant forall k, l | 0 <= k < i && 0 <= l < |q| :: PairFits(op, p[k], q[l], plain)
      invariant forall x: seq<int> | |x| == n :: At(res, x) == Combined(op, At(p[..i], x), At(q, x))
    {
      ghost var before := res;
      RowStart(op, before, p, i, q, n);
      for j := 0 to |q|
        invariant ValidPw(res, n) && Disjoint(res, n)
        invariant forall l | 0 <= l < j :: PairFits(op, p[i], q[l], plain)
        invariant forall x: seq<int> | |x| == n ::
            At(res, x) == InRow(op, At(before, x), p[i], q[..j], x)
      {
        var common := Intersect(p[i].dom, q[j].dom, n);
        if plain(common) {
          SkippedPair(op, before, p[i], q, j, n);
          continue;
        }
        var e := ApplyBase(op, p[i].aff, q[j].aff, n);
        if e.None? {
          return None;
        }
        var c := Piece(common, e.value);
        ComputedPair(op, before, res, p, i, q, j, c, n);
        res := res + [c];
      }
      assert q[..|q|] == q;
      RowEnd(op, before, res, p, i, q, n);
    }
    assert p[..|p|] == p;
    return Some(res);
  }

  lemma NoRows(op: BaseOp, p: Pw, q: Pw, n: nat)
    requires ValidPw(p, n) && ValidPw(q, n)
    ensures forall x: seq<int> | |x| == n :: At([], x) == Combined(op, At(p[..0], x), At(q, x))
  {
  }

  lemma RowStart(op: BaseOp, before: Pw, p: Pw, i: nat, q: Pw, n: nat)
    requires ValidPw(before, n) && ValidPw(p, n) && ValidPw(q, n) && i < |p|
    requires forall x: seq<int> | |x| == n :: At(before, x) == Combined(op, At(p[..i], x), At(q, x))
    ensures forall x: seq<int> | |x| == n :: At(before, x) == InRow(op, At(before, x), p[i], q[..0], x)
  {
  }

  lemma RowEnd(op: BaseOp, before: Pw, res: Pw, p: Pw, i: nat, q: Pw, n: nat)
    requires ValidPw(before, n) && ValidPw(res, n) && ValidPw(p, n) && ValidPw(q, n) && i < |p|
    requires forall x: seq<int> | |x| == n :: At(before, x) == Combined(op, At(p[..i], x), At(q, x))
    requires forall x: seq<int> | |x| == n :: At(res, x) == InRow(op, At(before, x), p[i], q, x)
    ensures forall x: seq<int> | |x| == n :: At(res, x) == Combined(op, At(p[..i + 1], x), At(q, x))
  {
    hide At, PieceAt, ValidPiece, Combined;
    assert p[..i + 1] == p[..i] + [p[i]];
    forall x: seq<int> | |x| == n ensures At(res, x) == Combined(op, At(p[..i + 1], x), At(q, x)) {
      AtExtended(p[..i], p[i], x);
      RowValue(op, At(p[..i], x), PieceAt(p[i], x), At(q, x));
    }
  }

  lemma RowValue(op: BaseOp, o: Outcome, c: Outcome, d: Outcome)
    ensures Combined(op, if o.Undefined? then c else o, d)
         == if Combined(op, o, d).Undefined? then Combined(op, c, d) else Combined(op, o, d)
  {
  }

  lemma PairValue(op: BaseOp, c: Piece, d: Piece, e: Piece, x: seq<int>)
    requires ValidPiece(c, |x|) && ValidPiece(d, |x|) && ValidPiece(e, |x|)
    requires In(e.dom, x) <==> In(c.dom, x) && In(d.dom, x)
    requires BaseAt(e.aff, x) == Combined(op, BaseAt(c.aff, x), BaseAt(d.aff, x))
    ensures PieceAt(e, x) == Combined(op, PieceAt(c, x), PieceAt(d, x))
  {
  }

  /** A computed pair adds its values on the shared cell. */
  lemma ComputedPair(op: BaseOp, before: Pw, res: Pw, p: Pw, i: nat, q: Pw, j: nat, c: Piece, n: nat)
    requires ValidPw(before, n) && ValidPw(res, n) && ValidPw(p, n) && ValidPw(q, n) && ValidPiece(c, n)
    requires Disjoint(res, n) && Disjoint(p, n) && Disjoint(q, n) && i < |p| && j < |q|
    requires forall x: seq<int> | |x| == n :: In(c.dom, x) <==> In(p[i].dom, x) && In(q[j].dom, x)
    requires forall x: seq<int> | |x| == n ::
        BaseAt(c.aff, x) == Combined(op, BaseAt(p[i].aff, x), BaseAt(q[j].aff, x))
    requires forall x: seq<int> | |x| == n :: At(before, x) == Combined(op, At(p[..i], x), At(q, x))
    requires forall x: seq<int> | |x| == n :: At(res, x) == InRow(op, At(before, x), p[i], q[..j], x)
    ensures ValidPw(res + [c], n) && Disjoint(res + [c], n)
    ensures forall x: seq<int> | |x| == n :: At(res + [c], x) == InRow(op, At(before, x), p[i], q[..j + 1], x)
  {
    hide In, ValidRegion, Disjoint, PieceAt, BaseAt;
    assert q[..j + 1] == q[..j] + [q[j]];
    forall x: seq<int> | |x| == n
      ensures At(res, x).Undefined? || PieceAt(c, x).Undefined?
      ensures At(res + [c], x) == InRow(op, At(before, x), p[i], q[..j + 1], x)
    {
      PairValue(op, p[i], q[j], c, x);
      OnlyPiece(p, i, x);
      OnlyPiece(q, j, x);
      AtExtended(res, c, x);
      AtExtended(q[..j], q[j], x);
    }
    DisjointExtended(res, c, n);
  }

  /** A pair without a shared point adds nothing. */
  lemma SkippedPair(op: BaseOp, before: Pw, c: Piece, q: Pw, j: nat, n: nat)
    requires ValidPw(before, n) && ValidPiece(c, n) && ValidPw(q, n) && j < |q|
    requires forall x: seq<int> | |x| == n :: !(In(c.dom, x) && In(q[j].dom, x))
    ensures forall x: seq<int> | |x| == n ::
        InRow(op, At(before, x), c, q[..j + 1], x) == InRow(op, At(before, x), c, q[..j], x)
  {
    hide In, ValidRegion;
    assert q[..j + 1] == q[..j] + [q[j]];
    forall x: seq<int> | |x| == n
      ensures InRow(op, At(before, x), c, q[..j + 1], x) == InRow(op, At(before, x), c, q[..j], x)
    {
      AtExtended(q[..j], q[j], x);
    }
  }

  ghost function InRow(op: BaseOp, o: Outcome, c: Piece, q: Pw, x: seq<int>): Outcome
    requires ValidPiece(c, |x|) && ValidPw(q, |x|)
  {
    if o.Undefined? then Combined(op, PieceAt(c, x), At(q, x)) else o
  }

  /** `isl_pw_aff_add` */
  method Add(p: Pw, q: Pw, n: nat) returns (r: Pw)
    requires ValidPw(p, n) && ValidPw(q, n) && Disjoint(p, n) && Disjoint(q, n)
    ensures ValidPw(r, n) && Disjoint(r, n)
    ensures forall x: seq<int> | |x| == n :: At(r, x) == Combined(Sum, At(p, x), At(q, x))
  {
    NoConjunction(n);
    var s := OnSharedDomain(Sum, p, q, n, IsNothing);
    r := s.value;
  }

  lemma NonNegVal(e: Aff, x: seq<int>)
    requires e.Valid(|x|)
    ensures e.(denom := 1).Valid(|x|) && (Val(e.(denom := 1), x) >= 0.0 <==> Val(e, x) >= 0.0)
  {
    hide Args;
    SignOfFraction(Num(e, x) as real, e.denom as real);
    assert Num(e.(denom := 1), x) == Num(e, x);
  }

  lemma SignOfFraction(a: real, d: real)
    requires d > 0.0
    ensures a / d >= 0.0 <==> a >= 0.0
  {
    var y := a / d;
    assert y * d == a;
    if y >= 0.0 { LessEqualProduct(0.0, y, d); } else { LessProduct(y, 0.0, d); }
  }

  /** `isl_pw_aff_nonneg_set`: the locus of the pieces that are not NaN. */
  method NonNegSet(p: Pw, n: nat) returns (s: Region)
    requires ValidPw(p, n) && Disjoint(p, n)
    ensures ValidRegion(s, n)
    ensures forall x: seq<int> | |x| == n ::
        In(s, x) <==> At(p, x).Number? && At(p, x).v >= 0.0
  {
    hide In, ValidRegion, Val;
    s := [];
    NoRegion(n);
    for i := 0 to |p|
      invariant ValidRegion(s, n)
      invariant forall x: seq<int> | |x| == n ::
          In(s, x) <==> At(p[..i], x).Number? && At(p[..i], x).v >= 0.0
    {
      assert p[..i + 1] == p[..i] + [p[i]];
      forall x: seq<int> | |x| == n ensures At(p[..i], x).Undefined? || PieceAt(p[i], x).Undefined? {
        OnlyPiece(p, i, x);
      }
      forall x: seq<int> | |x| == n
        ensures At(p[..i + 1], x) == if At(p[..i], x).Undefined? then PieceAt(p[i], x) else At(p[..i], x)
      {
        AtExtended(p[..i], p[i], x);
      }
      var e := p[i].aff;
      if e.denom != 0 {
        NonNegRegion(e, n);
        var t := Intersect(p[i].dom, [[e.(denom := 1)]], n);
        InUnion(s, t, Zeroes(n));
        forall x: seq<int> | |x| == n
          ensures In(s + t, x) <==> At(p[..i + 1], x).Number? && At(p[..i + 1], x).v >= 0.0
        {
          InUnion(s, t, x);
        }
        s := s + t;
      }
    }
    assert p[..|p|] == p;
  }

  lemma NonNegRegion(e: Aff, n: nat)
    requires e.Valid(n)
    ensures ValidRegion([[e.(denom := 1)]], n)
    ensures forall x: seq<int> | |x| == n :: In([[e.(denom := 1)]], x) <==> Val(e, x) >= 0.0
  {
    hide Val;
    var c := e.(denom := 1);
    NonNegVal(e, Zeroes(n));
    forall x: seq<int> | |x| == n ensures In([[c]], x) <==> Val(e, x) >= 0.0 {
      NonNegVal(e, x);
      assert [[c]][0] == [c] && [c][0] == c;
      if Val(e, x) >= 0.0 { assert Meets([[c]][0], x); }
    }
  }

  // ---------------------------------------------------------------- choice

  /** Not `e >= 0`, over the integers. */
  function Opposite(e: Aff): Aff
    requires |e.v| > 0
  {
    Aff(1, Times(e.v, -1)[0 := -e.v[0] - 1], e.divs)
  }

  lemma OppositeVal(e: Aff, x: seq<int>)
    requires e.Valid(|x|)
    ensures Opposite(e).Valid(|x|) && (Val(Opposite(e), x) >= 0.0 <==> Val(e, x) < 0.0)
  {
    hide Args;
    var r := Opposite(e);
    var a := Args(x, e.divs);
    ArgsHead(x, e.divs);
    IDotLinear(e.v, e.v, Times(e.v, -1), -1, 0, a, |e.v|);
    IDotShift(Times(e.v, -1), r.v, a, |e.v|);
    assert Num(r, x) == -Num(e, x) - 1;
    SignOfFraction(Num(e, x) as real, e.denom as real);
    ValInteger(r, x);
  }

  /** The constants of r and s differ by one. */
  lemma {:induction false} IDotShift(r: Row, s: Row, a: Row, n: nat)
    requires 1 <= n <= |r| && n <= |s| && n <= |a| && a[0] == 1 && s[0] == r[0] - 1
    requires forall k | 1 <= k < n :: s[k] == r[k]
    ensures IDot(s, a, n) == IDot(r, a, n) - 1
  {
    if n > 1 {
      IDotShift(r, s, a, n - 1);
    } else {
      assert IDot(s, a, 0) == 0 && IDot(r, a, 0) == 0;
    }
  }

  /** The points that break some constraint of b. */
  function BasicComplement(b: seq<Aff>, n: nat): (r: Region)
    requires forall l | 0 <= l < |b| :: |b[l].v| > 0
  {
    seq(|b|, l requires 0 <= l < |b| => [Opposite(b[l])])
  }

  lemma BasicComplementIn(b: seq<Aff>, x: seq<int>)
    requires ValidBasic(b, |x|)
    ensures ValidRegion(BasicComplement(b, |x|), |x|)
    ensures In(BasicComplement(b, |x|), x) <==> !Meets(b, x)
  {
    hide Val;
    var r := BasicComplement(b, |x|);
    forall l | 0 <= l < |b|
      ensures ValidBasic(r[l], |x|) && (Meets(r[l], x) <==> Val(b[l], x) < 0.0)
    {
      OppositeVal(b[l], x);
      assert r[l] == [Opposite(b[l])] && r[l][0] == Opposite(b[l]);
    }
  }

  /** `isl_set_complement` */
  method Complement(s: Region, n: nat) returns (r: Region)
    requires ValidRegion(s, n)
    ensures ValidRegion(r, n)
    ensures forall x: seq<int> | |x| == n :: In(r, x) <==> !In(s, x)
  {
    hide Meets, Val;
    r := [[]];
    forall x: seq<int> | |x| == n ensures In(r, x) && !In(s[..0], x) { WholeSpace(x); }
    for i := 0 to |s|
      invariant ValidRegion(r, n)
      invariant forall x: seq<int> | |x| == n :: In(r, x) <==> !In(s[..i], x)
    {
      BasicComplementIn(s[i], Zeroes(n));
      r := Intersect(r, BasicComplement(s[i], n), n);
      assert s[..i + 1] == s[..i] + [s[i]];
      forall x: seq<int> | |x| == n ensures In(r, x) <==> !In(s[..i + 1], x) {
        BasicComplementIn(s[i], x);
        InExtended(s[..i], s[i], x);
      }
    }
    assert s[..|s|] == s;
  }

  lemma WholeSpace(x: seq<int>)
    ensures ValidRegion([[]], |x|) && In([[]], x)
  {
    assert Meets([[]][0], x);
  }

  /** `isl_pw_aff_cond` on the indicator function of a region: p on it, q elsewhere. */
  method Cond(cond: Region, p: Pw, q: Pw, n: nat) returns (r: Pw)
    requires ValidRegion(cond, n) && ValidPw(p, n) && ValidPw(q, n) && Disjoint(p, n) && Disjoint(q, n)
    ensures ValidPw(r, n) && Disjoint(r, n)
    ensures forall x: seq<int> | |x| == n :: At(r, x) == if In(cond, x) then At(p, x) else At(q, x)
  {
    hide In, ValidRegion, At, Disjoint;
    if p == q {
      return p;
    }
    var other := Complement(cond, n);
    var p1 := IntersectDomain(p, cond, n);
    var q1 := IntersectDomain(q, other, n);
    r := AddDisjoint(p1, q1, n);
  }
}
