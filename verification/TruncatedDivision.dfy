/** Integer division with truncation towards zero, `isl_pw_aff_tdiv_q` and
    `isl_pw_aff_tdiv_r`, on piecewise quasi-affine expressions. */
module TruncatedDivision {
  import opened Wrappers
  import opened IntArith
  import opened QuasiAffine
  import opened Piecewise

  // ---------------------------------------------------------------- division of reals

  ghost function AbsReal(x: real): real { if x < 0.0 then -x else x }

  /** q is the integer quotient of a by b rounded towards zero. */
  ghost predicate DividesTowardsZero(a: real, b: real, q: real) {
    var r := a - b * q;
    && b != 0.0
    && q == (q.Floor as real)
    && AbsReal(r) < AbsReal(b)
    && (r == 0.0 || (r > 0.0 <==> a > 0.0))
  }

  /** There is only one such quotient. */
  lemma QuotientUniquelyTruncated(a: real, b: real, q: real, q': real)
    requires DividesTowardsZero(a, b, q) && DividesTowardsZero(a, b, q')
    ensures q == q'
  {
    SameSide(a - b * q, a - b * q', a, b);
    var k := q'.Floor - q.Floor;
    assert q' == q + (k as real);
    UniqueQuotient(a, b, q, q', k);
  }

  lemma SameSide(r: real, r': real, a: real, b: real)
    requires AbsReal(r) < AbsReal(b) && AbsReal(r') < AbsReal(b)
    requires (r == 0.0 || (r > 0.0 <==> a > 0.0)) && (r' == 0.0 || (r' > 0.0 <==> a > 0.0))
    ensures AbsReal(r - r') < AbsReal(b)
  {
  }

  lemma UniqueQuotient(a: real, b: real, q: real, q': real, k: int)
    requires q' == q + (k as real) && AbsReal((a - b * q) - (a - b * q')) < AbsReal(b)
    ensures q == q'
  {
    var c := k as real;
    assert b * (q + c) == b * q + b * c;
    SmallMultiple(b * c, b, k);
  }

  lemma SmallMultiple(z: real, b: real, k: int)
    requires AbsReal(z) < AbsReal(b) && z == b * (k as real)
    ensures k == 0
  {
    if k >= 1 { WholeMultiple(b, k as real); }
    if k <= -1 { WholeMultiple(b, -(k as real)); }
  }

  lemma WholeMultiple(b: real, c: real)
    requires c >= 1.0
    ensures AbsReal(b * c) >= AbsReal(b) && AbsReal(b * -c) >= AbsReal(b)
  {
    LessEqualProductAny(1.0, c, AbsReal(b));
    assert b * -c == -(b * c);
    assert AbsReal(b * c) == AbsReal(b) * c by { AbsProduct(b, c); }
  }

  lemma LessEqualProductAny(a: real, b: real, m: real)
    requires a <= b && m >= 0.0
    ensures a * m <= b * m
  {
  }

  lemma AbsProduct(b: real, c: real)
    requires c > 0.0
    ensures AbsReal(b * c) == AbsReal(b) * c
  {
    if b < 0.0 { assert b * c < 0.0 && (-b) * c == -(b * c); } else { assert b * c >= 0.0; }
  }

  lemma TruncationArithmetic(y: real, b: real, q: real)
    requires b != 0.0
    requires q == if y >= 0.0 then (y.Floor as real) else (Ceiling(y) as real)
    ensures DividesTowardsZero(y * b, b, q)
  {
    var f := y - q;
    assert if y >= 0.0 then 0.0 <= f < 1.0 && f <= y else -1.0 < f <= 0.0;
    var a := y * b;
    var r := a - b * q;
    assert r == f * b;
    FractionOf(f, b);
    SameSign(f, y, b);
  }

  lemma FractionOf(f: real, b: real)
    requires b != 0.0 && -1.0 < f < 1.0
    ensures AbsReal(f * b) < AbsReal(b)
  {
    if b > 0.0 {
      LessProduct(f, 1.0, b);
      LessProduct(-1.0, f, b);
    } else {
      LessProduct(f, 1.0, -b);
      LessProduct(-1.0, f, -b);
    }
  }

  /** Multiplying by b keeps f and y on the same side of zero. */
  lemma SameSign(f: real, y: real, b: real)
    requires b != 0.0 && (f > 0.0 ==> y > 0.0) && (f < 0.0 ==> y < 0.0)
    ensures f * b == 0.0 || (f * b > 0.0 <==> y * b > 0.0)
  {
    if f > 0.0 {
      if b > 0.0 { LessProduct(0.0, f, b); LessProduct(0.0, y, b); }
      else { LessProduct(0.0, f, -b); LessProduct(0.0, y, -b); }
    } else if f < 0.0 {
      if b > 0.0 { LessProduct(f, 0.0, b); LessProduct(y, 0.0, b); }
      else { LessProduct(f, 0.0, -b); LessProduct(y, 0.0, -b); }
    }
  }

  // ---------------------------------------------------------------- piecewise division

  /** The quotient rounded down where it is not negative and up elsewhere. */
  ghost function TruncatedQuotient(a: real, b: real): real
    requires b != 0.0
  {
    if a / b >= 0.0 then (a / b).Floor as real else Ceiling(a / b) as real
  }

  /** a = b * q + r with an integer q, |r| < |b|, and r zero or of the sign of a. */
  lemma TruncatedQuotientDivides(a: real, b: real)
    requires b != 0.0
    ensures DividesTowardsZero(a, b, TruncatedQuotient(a, b))
  {
    hide DividesTowardsZero;
    var y := a / b;
    assert y * b == a;
    TruncationArithmetic(y, b, TruncatedQuotient(a, b));
  }

  /** `isl_pw_aff_is_cst` */
  predicate PiecewiseConstant(p: Pw) {
    forall k | 0 <= k < |p| :: p[k].aff.denom == 0 || p[k].aff.IsConstant()
  }

  /** Undefined or NaN with an argument, NaN on a zero divisor. */
  ghost predicate IsTruncatedQuotient(o: Outcome, a: Outcome, b: Outcome) {
    if a.Undefined? || b.Undefined? then o.Undefined?
    else if a.NaN? || b.NaN? || b.v == 0.0 then o.NaN?
    else o.Number? && DividesTowardsZero(a.v, b.v, o.v)
  }

  ghost predicate IsTruncatedRemainder(o: Outcome, a: Outcome, b: Outcome) {
    if a.Undefined? || b.Undefined? then o.Undefined?
    else if a.NaN? || b.NaN? || b.v == 0.0 then o.NaN?
    else o.Number? && IsRemainder(a.v, b.v, o.v)
  }

  /** r is what an integer quotient rounded towards zero leaves of a. */
  ghost predicate IsRemainder(a: real, b: real, r: real) {
    exists q :: DividesTowardsZero(a, b, q) && r == a - b * q
  }

  /** `isl_pw_aff_tdiv_q`; a divisor that is not piecewise constant is an error. */
  method TDivQ(p: Pw, q: Pw, n: nat) returns (r: Option<Pw>)
    requires ValidPw(p, n) && ValidPw(q, n) && Disjoint(p, n) && Disjoint(q, n)
    ensures r.Some? <==> PiecewiseConstant(q)
    ensures r.Some? ==> ValidPw(r.value, n) && Disjoint(r.value, n)
    ensures r.Some? ==>
      forall x: seq<int> | |x| == n :: IsTruncatedQuotient(At(r.value, x), At(p, x), At(q, x))
  {
    hide ValidPw, Disjoint, At, In, ValidRegion, DividesTowardsZero;
    if !PiecewiseConstant(q) {
      return None;
    }
    NoConjunction(n);
    var d := OnSharedDomain(Quotient, p, q, n, IsNothing);
    var d1 := d.value;
    var cond := NonNegSet(d1, n);
    var f := UnaryOp(RoundDown, d1, n);
    var c := UnaryOp(RoundUp, d1, n);
    var t := Cond(cond, f, c, n);
    forall x: seq<int> | |x| == n ensures IsTruncatedQuotient(At(t, x), At(p, x), At(q, x)) {
      var a, b := At(p, x), At(q, x);
      if a.Number? && b.Number? && b.v != 0.0 { TruncatedQuotientDivides(a.v, b.v); }
    }
    return Some(t);
  }

  /** `isl_pw_aff_tdiv_r` */
  method TDivR(p: Pw, q: Pw, n: nat) returns (r: Option<Pw>)
    requires ValidPw(p, n) && ValidPw(q, n) && Disjoint(p, n) && Disjoint(q, n)
    ensures r.Some? <==> PiecewiseConstant(q)
    ensures r.Some? ==> ValidPw(r.value, n) && Disjoint(r.value, n)
    ensures r.Some? ==>
      forall x: seq<int> | |x| == n :: IsTruncatedRemainder(At(r.value, x), At(p, x), At(q, x))
  {
    hide ValidPw, Disjoint, At, In, ValidRegion, DividesTowardsZero, Combined, Applied, IsTruncatedQuotient, IsTruncatedRemainder;
    if !PiecewiseConstant(q) {
      return None;
    }
    var t := TDivQ(p, q, n);
    NoConjunction(n);
    var m := OnSharedDomain(Product, q, t.value, n, IsNothing);
    var minus := UnaryOp(Negative, m.value, n);
    var res := Add(p, minus, n);
    forall x: seq<int> | |x| == n ensures IsTruncatedRemainder(At(res, x), At(p, x), At(q, x)) {
      RemainderOf(At(p, x), At(q, x), At(t.value, x));
    }
    return Some(res);
  }

  lemma RemainderOf(a: Outcome, b: Outcome, q: Outcome)
    requires IsTruncatedQuotient(q, a, b)
    ensures IsTruncatedRemainder(Combined(Sum, a, Applied(Negative, Combined(Product, b, q))), a, b)
  {
    hide DividesTowardsZero;
    if a.Number? && b.Number? && b.v != 0.0 {
      assert a.v + -(b.v * q.v) == a.v - b.v * q.v;
    }
  }
}
