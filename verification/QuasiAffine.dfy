/** Quasi-affine expressions of isl: a denominator, a constant, coefficients,
    and coefficients of nested integer divisions, with the operations floor,
    ceiling, scaling, sum, division by a constant and truncated division, all
    related to one evaluation function. */
module QuasiAffine {
  import opened Wrappers
  import opened IntArith
  import opened LinearAlgebra
  import opened Points

  /** floor(coeffs / denom) over the constant, the variables and earlier divisions. */
  datatype Div = Div(denom: int, coeffs: Row)

  datatype Aff = Aff(denom: int, v: Row, divs: seq<Div>)
  {
    /** Well-formed but for the sign of the denominator. */
    ghost predicate Shaped(n: nat) {
      denom != 0 && |v| == 1 + n + |divs| && ValidDivs(divs, n)
    }

    ghost predicate Valid(n: nat) {
      Shaped(n) && denom > 0
    }

    /** `isl_aff_is_cst` */
    predicate IsConstant() {
      |v| > 0 && forall k | 1 <= k < |v| :: v[k] == 0
    }
  }

  predicate ValidDivs(divs: seq<Div>, n: nat) {
    forall k | 0 <= k < |divs| :: divs[k].denom > 0 && |divs[k].coeffs| == 1 + n + k
  }

  // ---------------------------------------------------------------- evaluation

  /** 1, the variables, and the values of the divisions. */
  ghost function Args(x: seq<int>, divs: seq<Div>): (a: Row)
    requires ValidDivs(divs, |x|)
    ensures |a| == 1 + |x| + |divs|
    decreases |divs|
  {
    if divs == [] then Homog(x)
    else
      var k := |divs| - 1;
      var a := Args(x, divs[..k]);
      a + [IDot(divs[k].coeffs, a, |a|) / divs[k].denom]
  }

  /** The numerator at x. */
  ghost function Num(e: Aff, x: seq<int>): int
    requires e.Shaped(|x|)
  {
    IDot(e.v, Args(x, e.divs), |e.v|)
  }

  /** The value at the integer point x. */
  ghost function Val(e: Aff, x: seq<int>): real
    requires e.Shaped(|x|)
  {
    (Num(e, x) as real) / (e.denom as real)
  }

  lemma DivsExtended(divs: seq<Div>, d: Div, n: nat)
    requires ValidDivs(divs, n) && d.denom > 0 && |d.coeffs| == 1 + n + |divs|
    ensures ValidDivs(divs + [d], n)
  {
  }

  lemma ArgsLast(x: seq<int>, e: seq<Div>)
    requires ValidDivs(e, |x|) && e != []
    ensures var k, a := |e| - 1, Args(x, e[..|e| - 1]);
      Args(x, e) == a + [IDot(e[k].coeffs, a, |a|) / e[k].denom]
  {
  }

  lemma ArgsExtended(x: seq<int>, divs: seq<Div>, d: Div)
    requires ValidDivs(divs, |x|) && d.denom > 0 && |d.coeffs| == 1 + |x| + |divs|
    ensures ValidDivs(divs + [d], |x|)
    ensures Args(x, divs + [d]) == Args(x, divs) + [IDot(d.coeffs, Args(x, divs), 1 + |x| + |divs|) / d.denom]
  {
    hide IDot, ValidDivs, Args;
    DivsExtended(divs, d, |x|);
    var e := divs + [d];
    ArgsLast(x, e);
    assert e[..|e| - 1] == divs && e[|e| - 1] == d;
  }

  // ---------------------------------------------------------------- inner products

  /** s = c * r + d * t, entry by entry */
  lemma {:induction false} IDotLinear(r: Row, t: Row, s: Row, c: int, d: int, a: Row, n: nat)
    requires n <= |r| && n <= |t| && n <= |s| && n <= |a|
    requires forall k | 0 <= k < n :: s[k] == c * r[k] + d * t[k]
    ensures IDot(s, a, n) == c * IDot(r, a, n) + d * IDot(t, a, n)
  {
    if n > 0 {
      IDotLinear(r, t, s, c, d, a, n - 1);
      LinearTerm(c, r[n - 1], d, t[n - 1], a[n - 1], IDot(r, a, n - 1), IDot(t, a, n - 1));
    }
  }

  lemma LinearTerm(c: int, r: int, d: int, t: int, a: int, x: int, y: int)
    ensures c * x + d * y + (c * r + d * t) * a == c * (x + r * a) + d * (y + t * a)
  {
  }

  lemma {:induction false} IDotConstant(r: Row, a: Row, n: nat)
    requires 1 <= n <= |r| && n <= |a| && a[0] == 1
    requires forall k | 1 <= k < n :: r[k] == 0
    ensures IDot(r, a, n) == r[0]
  {
    if n > 1 { IDotConstant(r, a, n - 1); } else { assert IDot(r, a, 0) == 0; }
  }

  lemma {:induction false} ArgsHead(x: seq<int>, divs: seq<Div>)
    requires ValidDivs(divs, |x|)
    ensures Args(x, divs)[0] == 1
    decreases |divs|
  {
    if divs != [] { ArgsHead(x, divs[..|divs| - 1]); }
  }

  // ---------------------------------------------------------------- floor and ceiling of a quotient

  lemma FloorQuotient(a: int, m: int)
    requires m > 0
    ensures ((a as real) / (m as real)).Floor == a / m
  {
    var q, r := a / m, a % m;
    assert a == q * m + r;
    MulReal(q, m);
    var y := (a as real) / (m as real);
    assert (a as real) == (q as real) * (m as real) + (r as real);
    QuotientBetween(a as real, m as real, q as real, r as real);
  }

  lemma QuotientBetween(a: real, m: real, q: real, r: real)
    requires m > 0.0 && 0.0 <= r < m && a == q * m + r
    ensures q <= a / m < q + 1.0
  {
    var y := a / m;
    assert y * m == a;
    if y < q { LessProduct(y, q, m); }
    if y >= q + 1.0 { LessEqualProduct(q + 1.0, y, m); }
  }

  lemma LessProduct(a: real, b: real, m: real)
    requires a < b && m > 0.0
    ensures a * m < b * m
  {
  }

  lemma LessEqualProduct(a: real, b: real, m: real)
    requires a <= b && m > 0.0
    ensures a * m <= b * m
  {
  }

  lemma CeilingUnique(y: real, c: int)
    requires (c as real) - 1.0 < y <= (c as real)
    ensures Ceiling(y) == c
  {
  }

  lemma CeilingQuotient(a: int, m: int)
    requires m > 0
    ensures Ceiling((a as real) / (m as real)) == (a + m - 1) / m
  {
    var q, r := (a + m - 1) / m, (a + m - 1) % m;
    assert a + m - 1 == q * m + r;
    MulReal(q, m);
    QuotientAbove(a as real, m as real, q as real, (m - 1 - r) as real);
    CeilingUnique((a as real) / (m as real), q);
  }

  lemma QuotientAbove(a: real, m: real, q: real, s: real)
    requires m > 0.0 && 0.0 <= s < m && a == q * m - s
    ensures q - 1.0 < a / m <= q
  {
    var y := a / m;
    assert y * m == a;
    if y > q { LessProduct(q, y, m); }
    if y <= q - 1.0 { LessEqualProduct(y, q - 1.0, m); }
  }

  lemma QuotientShift(a: int, b: int, m: int)
    requires m > 0
    ensures (m * a + b) / m == a + b / m
  {
    var q, r := b / m, b % m;
    assert b == q * m + r;
    QuotientIs(m * a + b, a + q, r, m);
  }

  lemma QuotientIs(z: int, q: int, r: int, m: int)
    requires m > 0 && 0 <= r < m && z == q * m + r
    ensures z / m == q
  {
    var e, s := z / m, z % m;
    assert z == e * m + s;
    assert (q - e) * m == s - r;
    if q != e { MulAtLeast(q - e, m); }
  }

  // ---------------------------------------------------------------- floor and ceiling

  /** The splitting of the coefficients by `isl_aff_floor`: quotients, and
      remainders between -m/2 and m/2. */
  ghost predicate Balanced(v: Row, quot: Row, rem: Row, m: int, n: nat) {
    && n <= |v| == |quot| == |rem|
    && forall k | 0 <= k < n :: v[k] == m * quot[k] + 1 * rem[k] && -m < 2 * rem[k] <= m
  }

  method Split(v: Row, m: int) returns (quot: Row, rem: Row)
    requires m > 0
    ensures Balanced(v, quot, rem, m, |v|)
  {
    quot, rem := v, v;
    var half := m / 2;
    var i := 0;
    while i < |v|
      invariant 0 <= i <= |v| == |quot| == |rem| && Balanced(v, quot, rem, m, i)
      invariant forall k | i <= k < |v| :: quot[k] == rem[k] == v[k]
    {
      rem := rem[i := rem[i] % m];
      quot := quot[i := quot[i] / m];
      if rem[i] > half {
        rem := rem[i := rem[i] - m];
        quot := quot[i := quot[i] + 1];
      }
      BalancedEntry(v[i], m);
      i := i + 1;
    }
  }

  lemma BalancedEntry(x: int, m: int)
    requires m > 0
    ensures x == m * (x / m) + 1 * (x % m) && x == m * (x / m + 1) + 1 * (x % m - m)
  {
    assert m * (x / m + 1) == m * (x / m) + m;
  }

  /** q + [r / m], with the new division last */
  function FloorExpr(quot: Row, rem: Row, m: int, divs: seq<Div>): Aff {
    Aff(1, quot + [1], divs + [Div(m, rem)])
  }

  lemma FloorExprValue(e: Aff, quot: Row, rem: Row, x: seq<int>)
    requires e.Valid(|x|) && Balanced(e.v, quot, rem, e.denom, |e.v|)
    ensures FloorExpr(quot, rem, e.denom, e.divs).Valid(|x|)
    ensures Num(FloorExpr(quot, rem, e.denom, e.divs), x) == Num(e, x) / e.denom
  {
    var r, a, m, n := FloorExpr(quot, rem, e.denom, e.divs), Args(x, e.divs), e.denom, |e.v|;
    ArgsExtended(x, e.divs, Div(m, rem));
    var a' := Args(x, r.divs);
    IDotSame(r.v, a', quot, a, n);
    assert IDot(r.v, a', n + 1) == IDot(r.v, a', n) + a'[n];
    IDotLinear(quot, rem, e.v, m, 1, a, n);
    QuotientShift(IDot(quot, a, n), IDot(rem, a, n), m);
  }

  /** e is the floor of d at every integer point. */
  ghost predicate IsFloor(e: Aff, d: Aff, n: nat) {
    e.Valid(n) && d.Valid(n) && e.denom == 1
    && forall x: seq<int> | |x| == n :: Val(e, x) == (Val(d, x).Floor as real)
  }

  ghost predicate IsCeiling(e: Aff, d: Aff, n: nat) {
    e.Valid(n) && d.Valid(n) && e.denom == 1
    && forall x: seq<int> | |x| == n :: Val(e, x) == (Ceiling(Val(d, x)) as real)
  }

  lemma ValInteger(e: Aff, x: seq<int>)
    requires e.Valid(|x|) && e.denom == 1
    ensures Val(e, x) == Num(e, x) as real
  {
  }

  /** At most one division more, after the old ones. */
  predicate ExtendsDivs(divs: seq<Div>, old_: seq<Div>) {
    |old_| <= |divs| <= |old_| + 1 && divs[..|old_|] == old_
  }

  /** `isl_aff_floor`; a denominator of 0 marks NaN, which is returned as it is. */
  method Floor(e: Aff, n: nat) returns (r: Aff)
    requires e.denom == 0 || e.Valid(n)
    ensures e.denom == 0 ==> r == e
    ensures e.denom != 0 ==> IsFloor(r, e, n) && ExtendsDivs(r.divs, e.divs)
    ensures e.denom == 1 ==> r == e
    ensures e.denom > 1 ==> r.denom == 1 && (r.divs == e.divs <==> e.IsConstant())
  {
    hide Val, Num, Args, Balanced;
    if e.denom == 0 {
      return e;
    }
    if e.denom == 1 {
      forall x: seq<int> | |x| == n ensures Val(e, x) == (Val(e, x).Floor as real) { ValInteger(e, x); }
      return e;
    }
    if e.IsConstant() {
      r := Aff(1, e.v[0 := e.v[0] / e.denom], e.divs);
      forall x: seq<int> | |x| == n ensures Val(r, x) == (Val(e, x).Floor as real) {
        ConstantFloor(e, r, x);
      }
    } else {
      var quot, rem := Split(e.v, e.denom);
      r := FloorExpr(quot, rem, e.denom, e.divs);
      FloorExprValue(e, quot, rem, Zeroes(n));
      forall x: seq<int> | |x| == n ensures Val(r, x) == (Val(e, x).Floor as real) {
        FloorExprValue(e, quot, rem, x);
        FloorVal(e, r, x);
      }
    }
  }

  lemma FloorVal(e: Aff, r: Aff, x: seq<int>)
    requires e.Valid(|x|) && r.Valid(|x|) && r.denom == 1 && Num(r, x) == Num(e, x) / e.denom
    ensures Val(r, x) == (Val(e, x).Floor as real)
  {
    hide Num;
    ValInteger(r, x);
    FloorQuotient(Num(e, x), e.denom);
  }

  lemma ConstantFloor(e: Aff, r: Aff, x: seq<int>)
    requires e.Valid(|x|) && e.IsConstant() && r == Aff(1, e.v[0 := e.v[0] / e.denom], e.divs)
    ensures Val(r, x) == (Val(e, x).Floor as real)
  {
    hide Args;
    ArgsHead(x, e.divs);
    IDotConstant(e.v, Args(x, e.divs), |e.v|);
    IDotConstant(r.v, Args(x, e.divs), |e.v|);
    FloorVal(e, r, x);
  }

  function Zeroes(n: nat): (x: seq<int>)
    ensures |x| == n && forall k | 0 <= k < n :: x[k] == 0
  {
    seq(n, _ => 0)
  }

  /** `isl_aff_ceil` */
  method Ceil(e: Aff, n: nat) returns (r: Aff)
    requires e.denom == 0 || e.Valid(n)
    ensures e.denom == 0 ==> r == e
    ensures e.denom != 0 ==> IsCeiling(r, e, n)
    ensures e.denom == 1 ==> r == e
    ensures e.denom > 1 ==> r.denom == 1 && (r.divs == e.divs <==> e.IsConstant())
  {
    if e.denom == 0 {
      return e;
    }
    if e.denom == 1 {
      forall x: seq<int> | |x| == n ensures Val(e, x) == (Ceiling(Val(e, x)) as real) {
        ValInteger(e, x);
        CeilingUnique(Val(e, x), Num(e, x));
      }
      return e;
    }
    var shifted := e.(v := e.v[0 := e.v[0] + e.denom - 1]);
    assert shifted.IsConstant() <==> e.IsConstant() by {
      assert forall k | 1 <= k < |e.v| :: shifted.v[k] == e.v[k];
    }
    r := Floor(shifted, n);
    forall x: seq<int> | |x| == n ensures Val(r, x) == (Ceiling(Val(e, x)) as real) {
      ShiftedNum(e, shifted, x);
      FloorQuotient(Num(shifted, x), e.denom);
      CeilingQuotient(Num(e, x), e.denom);
    }
  }

  lemma ShiftedNum(e: Aff, s: Aff, x: seq<int>)
    requires e.Valid(|x|) && s == e.(v := e.v[0 := e.v[0] + e.denom - 1])
    ensures Num(s, x) == Num(e, x) + e.denom - 1
  {
    var a := Args(x, e.divs);
    var unit := Zeroes(|e.v|)[0 := 1];
    ArgsHead(x, e.divs);
    IDotLinear(e.v, unit, s.v, 1, e.denom - 1, a, |e.v|);
    IDotConstant(unit, a, |e.v|);
  }

  // ---------------------------------------------------------------- scaling

  /** `isl_seq_gcd` of the first n entries. */
  function RowGcd(r: Row, n: nat): (g: nat)
    requires n <= |r|
  {
    if n == 0 then 0 else Gcd(RowGcd(r, n - 1), r[n - 1])
  }

  lemma {:induction false} RowGcdMultiple(r: Row, n: nat, f: int, k: nat) returns (q: int)
    requires k < n <= |r| && f != 0
    ensures r[k] == q * Gcd(RowGcd(r, n), f)
  {
    var h, g := RowGcd(r, n), Gcd(RowGcd(r, n), f);
    var x, y := GcdDivides(h, f);
    if h == 0 {
      GcdZero(RowGcd(r, n - 1), r[n - 1]);
      RowGcdZero(r, n - 1);
      q := 0;
    } else {
      var u, z := GcdDivides(RowGcd(r, n - 1), r[n - 1]);
      if k == n - 1 {
        MultipleOfMultiple(r[k], z, h, x, g);
        q := z * x;
      } else {
        var p := RowGcdMultiple(r, n - 1, h, k);
        GcdAbsorbs(RowGcd(r, n - 1), h, u);
        MultipleOfMultiple(r[k], p, h, x, g);
        q := p * x;
      }
    }
  }

  lemma GcdZero(a: int, b: int)
    ensures Gcd(a, b) == 0 ==> a == 0 && b == 0
  {
  }

  lemma {:induction false} RowGcdZero(r: Row, n: nat)
    requires n <= |r|
    ensures RowGcd(r, n) == 0 ==> forall k | 0 <= k < n :: r[k] == 0
  {
    if n > 0 {
      GcdZero(RowGcd(r, n - 1), r[n - 1]);
      RowGcdZero(r, n - 1);
    }
  }

  /** A positive divisor of a is their gcd. */
  lemma GcdAbsorbs(a: int, h: int, u: int)
    requires h > 0 && a == u * h
    ensures Gcd(a, h) == h
  {
    var x, y := GcdDivides(a, h);
    var z := GcdGreatest(a, h, h, u, 1);
    var g := Gcd(a, h);
    assert h == y * g && g == z * h;
    MultipleAtLeast(y, g);
    MultipleAtLeast(z, h);
  }

  function Times(v: Row, c: int): (r: Row)
    ensures |r| == |v| && forall k | 0 <= k < |v| :: r[k] == c * v[k]
  {
    seq(|v|, k requires 0 <= k < |v| => c * v[k])
  }

  function Over(v: Row, c: int): (r: Row)
    requires c != 0
    ensures |r| == |v| && forall k | 0 <= k < |v| :: r[k] == DivExact(v[k], c)
  {
    seq(|v|, k requires 0 <= k < |v| => DivExact(v[k], c))
  }

  lemma NumTimes(e: Aff, r: Aff, c: int, x: seq<int>)
    requires e.Shaped(|x|) && r.Shaped(|x|) && r.divs == e.divs
    requires forall k | 0 <= k < |e.v| :: r.v[k] == c * e.v[k]
    ensures Num(r, x) == c * Num(e, x)
  {
    IDotLinear(e.v, e.v, r.v, c, 0, Args(x, e.divs), |e.v|);
  }

  lemma ScaledFraction(n: int, d: int, n': int, d': int, f: int)
    requires d != 0 && d' != 0 && n' * d == f * n * d'
    ensures (n' as real) / (d' as real) == ((n as real) / (d as real)) * (f as real)
  {
    MulReal(n', d);
    MulReal(f * n, d');
    MulReal(f, n);
    ScaledFractionReal(n as real, d as real, n' as real, d' as real, f as real);
  }

  lemma ScaledFractionReal(n: real, d: real, n': real, d': real, f: real)
    requires d != 0.0 && d' != 0.0 && n' * d == f * n * d'
    ensures n' / d' == (n / d) * f
  {
    var y := n / d;
    assert n == y * d;
    assert n' * d == (f * y) * d' * d by { assert f * (y * d) * d' == (f * y) * d' * d; }
    assert n' == (f * y) * d' by { CancelReal(n', (f * y) * d', d); }
    assert n' / d' == f * y;
  }

  lemma CancelReal(x: real, y: real, d: real)
    requires d != 0.0 && x * d == y * d
    ensures x == y
  {
  }

  /** `isl_aff_scale` */
  method Scale(e: Aff, f: int, n: nat) returns (r: Aff)
    requires e.denom == 0 || e.Valid(n)
    ensures e.denom == 0 ==> r == e
    ensures e.denom != 0 ==> r.Valid(n) && r.divs == e.divs
    ensures e.denom != 0 ==> forall x: seq<int> | |x| == n :: Val(r, x) == Val(e, x) * (f as real)
  {
    if e.denom == 0 || f == 1 {
      return e;
    }
    if f > 0 && e.denom % f == 0 {
      r := e.(denom := DivExact(e.denom, f));
      ScaleByDenominator(e, f, n);
      return;
    }
    var g := Gcd(e.denom, f);
    r := Aff(DivExact(e.denom, g), Times(e.v, DivExact(f, g)), e.divs);
    ScaleByNumerator(e, f, n);
  }

  lemma ScaleByDenominator(e: Aff, f: int, n: nat)
    requires e.Valid(n) && f > 0 && e.denom % f == 0
    ensures var r := e.(denom := DivExact(e.denom, f));
      r.Valid(n) && forall x: seq<int> | |x| == n :: Val(r, x) == Val(e, x) * (f as real)
  {
    var r, q := e.(denom := DivExact(e.denom, f)), e.denom / f;
    assert e.denom == q * f;
    PositiveFactor(q, f);
    forall x: seq<int> | |x| == n ensures Val(r, x) == Val(e, x) * (f as real) {
      Rearrange(Num(e, x), q, f);
      ScaledFraction(Num(e, x), e.denom, Num(r, x), r.denom, f);
    }
  }

  lemma ScaleByNumerator(e: Aff, f: int, n: nat)
    requires e.Valid(n)
    ensures var g := Gcd(e.denom, f);
      g > 0 && Aff(DivExact(e.denom, g), Times(e.v, DivExact(f, g)), e.divs).Valid(n)
    ensures var g := Gcd(e.denom, f);
      var r := Aff(DivExact(e.denom, g), Times(e.v, DivExact(f, g)), e.divs);
      forall x: seq<int> | |x| == n :: Val(r, x) == Val(e, x) * (f as real)
  {
    var g := Gcd(e.denom, f);
    var p, q := GcdDivides(e.denom, f);
    PositiveFactor(p, g);
    var r := Aff(p, Times(e.v, q), e.divs);
    forall x: seq<int> | |x| == n ensures Val(r, x) == Val(e, x) * (f as real) {
      ScaledVal(e, r, p, q, g, f, x);
    }
  }

  lemma ScaledVal(e: Aff, r: Aff, p: int, q: int, g: int, f: int, x: seq<int>)
    requires e.Valid(|x|) && r.Valid(|x|) && r == Aff(p, Times(e.v, q), e.divs)
    requires e.denom == p * g && f == q * g
    ensures Val(r, x) == Val(e, x) * (f as real)
  {
    hide IDot, Args;
    NumTimes(e, r, q, x);
    CrossScale(Num(e, x), p, q, g);
    ScaledFraction(Num(e, x), e.denom, Num(r, x), r.denom, f);
  }

  lemma PositiveFactor(p: int, g: int)
    requires g > 0 && p * g > 0
    ensures p > 0
  {
    MultipleAtLeast(p, g);
  }

  lemma Rearrange(a: int, q: int, f: int)
    ensures a * (q * f) == f * a * q
  {
  }

  lemma CrossScale(a: int, p: int, q: int, g: int)
    ensures (q * a) * (p * g) == (q * g) * a * p
  {
  }

  /** `isl_aff_scale_down`; zero is rejected by the caller's error path, and a
      negative factor ends up in the sign of the denominator. */
  method ScaleDown(e: Aff, f: int, n: nat) returns (r: Aff)
    requires (e.denom == 0 || e.Valid(n)) && f != 0
    ensures e.denom == 0 ==> r == e
    ensures e.denom != 0 ==> r.Shaped(n) && r.divs == e.divs && (r.Valid(n) <==> f > 0)
    ensures e.denom != 0 ==> forall x: seq<int> | |x| == n :: Val(r, x) * (f as real) == Val(e, x)
  {
    hide Val;
    if e.denom == 0 || f == 1 {
      return e;
    }
    var g := Gcd(RowGcd(e.v, |e.v|), f);
    r := Aff(e.denom * DivExact(f, g), Over(e.v, g), e.divs);
    ScaledDownBy(e, f, n);
  }

  lemma ScaledDownBy(e: Aff, f: int, n: nat)
    requires e.Valid(n) && f != 0
    ensures var g := Gcd(RowGcd(e.v, |e.v|), f);
      g > 0
      && Aff(e.denom * DivExact(f, g), Over(e.v, g), e.divs).Shaped(n)
      && (Aff(e.denom * DivExact(f, g), Over(e.v, g), e.divs).Valid(n) <==> f > 0)
    ensures var g := Gcd(RowGcd(e.v, |e.v|), f);
      var r := Aff(e.denom * DivExact(f, g), Over(e.v, g), e.divs);
      forall x: seq<int> | |x| == n :: Val(r, x) * (f as real) == Val(e, x)
  {
    hide Val, IDot;
    var g := Gcd(RowGcd(e.v, |e.v|), f);
    var p, q := GcdDivides(RowGcd(e.v, |e.v|), f);
    var r := Aff(e.denom * q, Over(e.v, g), e.divs);
    SignOfQuotient(f, q, g, e.denom);
    forall k | 0 <= k < |e.v| ensures e.v[k] == g * r.v[k] {
      var z := RowGcdMultiple(e.v, |e.v|, f, k);
      ExactDivision(e.v[k], z, g);
    }
    forall x: seq<int> | |x| == n ensures Val(r, x) * (f as real) == Val(e, x) { ScaledDownVal(e, r, q, g, f, x); }
  }

  lemma ScaledDownVal(e: Aff, r: Aff, q: int, g: int, f: int, x: seq<int>)
    requires e.Valid(|x|) && r.Shaped(|x|) && r.divs == e.divs && r.denom == e.denom * q && f == q * g
    requires forall k | 0 <= k < |e.v| :: e.v[k] == g * r.v[k]
    ensures Val(r, x) * (f as real) == Val(e, x)
  {
    hide IDot, Args;
    NumTimes(r, e, g, x);
    CrossDown(Num(r, x), e.denom, q, g);
    ScaledFraction(Num(r, x), r.denom, Num(e, x), e.denom, f);
  }

  lemma SignOfQuotient(f: int, q: int, g: int, d: int)
    requires g > 0 && d > 0 && f == q * g && f != 0
    ensures d * q != 0 && (d * q > 0 <==> f > 0)
  {
    if q > 0 {
      assert d * q > 0 && q * g > 0;
    } else {
      assert q * g <= 0 && (q < 0 ==> d * q < 0 && q * g < 0);
    }
  }

  lemma CrossDown(a: int, d: int, q: int, g: int)
    ensures (g * a) * (d * q) == (q * g) * a * d
  {
  }

  // ---------------------------------------------------------------- sums

  /** `add_expanded`: the sum of two expressions over the same divisions. */
  method AddExpanded(e1: Aff, e2: Aff, n: nat) returns (r: Aff)
    requires e1.Valid(n) && e2.Valid(n) && e1.divs == e2.divs
    ensures r.Valid(n) && r.divs == e1.divs
    ensures forall x: seq<int> | |x| == n :: Val(r, x) == Val(e1, x) + Val(e2, x)
  {
    var g := Gcd(e1.denom, e2.denom);
    ghost var p, q := GcdDivides(e1.denom, e2.denom);
    PositiveFactor(p, g);
    PositiveFactor(q, g);
    var v := Times(e1.v, DivExact(e2.denom, g));
    var f := DivExact(e1.denom, g);
    v := seq(|v|, k requires 0 <= k < |v| => v[k] + f * e2.v[k]);
    r := Aff(e1.denom * DivExact(e2.denom, g), v, e1.divs);
    assert r.denom > 0 by { ProductPositive(e1.denom, q); }
    forall x: seq<int> | |x| == n ensures Val(r, x) == Val(e1, x) + Val(e2, x) {
      IDotLinear(e1.v, e2.v, r.v, q, p, Args(x, e1.divs), |r.v|);
      SumOfFractions(Num(e1, x), Num(e2, x), p, q, g);
    }
  }

  lemma ProductPositive(a: int, b: int)
    requires a > 0 && b > 0
    ensures a * b > 0
  {
  }

  lemma SumOfFractions(a: int, b: int, p: int, q: int, g: int)
    requires p > 0 && q > 0 && g > 0
    ensures p * g > 0 && q * g > 0 && (p * g) * q > 0
    ensures ((q * a + p * b) as real) / (((p * g) * q) as real)
         == (a as real) / ((p * g) as real) + (b as real) / ((q * g) as real)
  {
    ProductPositive(p, g);
    ProductPositive(q, g);
    ProductPositive(p * g, q);
    MulReal(p, g);
    MulReal(q, g);
    MulReal(p * g, q);
    MulReal(q, a);
    MulReal(p, b);
    SumOfFractionsReal(a as real, b as real, p as real, q as real, g as real);
  }

  lemma SumOfFractionsReal(a: real, b: real, p: real, q: real, g: real)
    requires p > 0.0 && q > 0.0 && g > 0.0
    ensures p * g > 0.0 && q * g > 0.0 && (p * g) * q > 0.0
    ensures (q * a + p * b) / ((p * g) * q) == a / (p * g) + b / (q * g)
  {
    var y, z := a / (p * g), b / (q * g);
    assert a == y * (p * g) && b == z * (q * g);
    assert q * a == y * ((p * g) * q);
    assert p * b == z * ((p * g) * q);
    assert q * a + p * b == (y + z) * ((p * g) * q);
  }

  // ---------------------------------------------------------------- division by a constant

  lemma ConstantVal(e: Aff, x: seq<int>)
    requires e.Shaped(|x|) && e.IsConstant()
    ensures Val(e, x) == (e.v[0] as real) / (e.denom as real)
  {
    ArgsHead(x, e.divs);
    IDotConstant(e.v, Args(x, e.divs), |e.v|);
  }

  /** q * e2 == e1 at every integer point. */
  ghost predicate IsQuotient(q: Aff, e1: Aff, e2: Aff, n: nat) {
    && q.Valid(n) && e1.Valid(n) && e2.Valid(n) && q.divs == e1.divs
    && forall x: seq<int> | |x| == n :: Val(q, x) * Val(e2, x) == Val(e1, x)
  }

  /** `isl_aff_div`: no result for a divisor that is not constant, and NaN
      (denominator 0) for a NaN argument or a zero divisor. */
  method DivideBy(e1: Aff, e2: Aff, n: nat) returns (r: Option<Aff>)
    requires (e1.denom == 0 || e1.Valid(n)) && (e2.denom == 0 || e2.Valid(n))
    ensures e1.denom != 0 && e2.denom != 0 && !e2.IsConstant() ==> r.None?
    ensures r.None? ==> e1.denom != 0 && e2.denom != 0 && !e2.IsConstant()
    ensures r.Some? ==>
      (r.value.denom == 0 <==> e1.denom == 0 || e2.denom == 0 || e2.v[0] == 0)
    ensures r.Some? && r.value.denom != 0 ==> IsQuotient(r.value, e1, e2, n)
  {
    if e1.denom == 0 {
      return Some(e1);
    }
    if e2.denom == 0 {
      return Some(e2);
    }
    if !e2.IsConstant() {
      return None;
    }
    if e2.v[0] == 0 {
      return Some(Aff(0, e1.v, e1.divs));
    }
    var d, c := e2.denom, e2.v[0];
    var neg := c < 0;
    if neg {
      d, c := -d, -c;
    }
    var s := Scale(e1, d, n);
    var q := ScaleDown(s, c, n);
    QuotientIs'(e1, e2, s, q, c, d, n);
    return Some(q);
  }

  lemma QuotientIs'(e1: Aff, e2: Aff, s: Aff, q: Aff, c: int, d: int, n: nat)
    requires e1.Valid(n) && e2.Valid(n) && s.Valid(n) && q.Valid(n) && q.divs == e1.divs && e2.IsConstant()
    requires d != 0 && c != 0 && ((c == e2.v[0] && d == e2.denom) || (c == -e2.v[0] && d == -e2.denom))
    requires forall x: seq<int> | |x| == n :: Val(s, x) == Val(e1, x) * (d as real)
    requires forall x: seq<int> | |x| == n :: Val(q, x) * (c as real) == Val(s, x)
    ensures IsQuotient(q, e1, e2, n)
  {
    hide Val;
    forall x: seq<int> | |x| == n ensures Val(q, x) * Val(e2, x) == Val(e1, x) {
      ConstantVal(e2, x);
      SignedQuotient(e2.v[0], e2.denom, c, d);
      DivisionCancels(Val(e1, x), Val(s, x), Val(q, x), c as real, d as real);
    }
  }

  lemma SignedQuotient(c: int, d: int, c': int, d': int)
    requires d != 0 && d' != 0 && ((c' == c && d' == d) || (c' == -c && d' == -d))
    ensures (c as real) / (d as real) == (c' as real) / (d' as real)
  {
  }

  lemma DivisionCancels(v: real, s: real, q: real, c: real, d: real)
    requires d != 0.0 && s == v * d && q * c == s
    ensures q * (c / d) == v
  {
    var y := c / d;
    assert c == y * d;
    assert (q * y) * d == v * d;
    CancelReal(q * y, v, d);
  }

  lemma NonZeroVal(e: Aff, x: seq<int>)
    requires e.Shaped(|x|) && e.IsConstant() && e.v[0] != 0
    ensures Val(e, x) != 0.0
  {
    ConstantVal(e, x);
    NonZeroFraction(e.v[0], e.denom);
  }

  lemma NonZeroFraction(c: int, d: int)
    requires c != 0 && d != 0
    ensures (c as real) / (d as real) != 0.0
  {
    var y := (c as real) / (d as real);
    assert y * (d as real) == c as real;
  }

  /** `isl_aff_mul`: NaN if an argument is NaN; otherwise one of them must be a constant. */
  method MultiplyBy(e1: Aff, e2: Aff, n: nat) returns (r: Option<Aff>)
    requires (e1.denom == 0 || e1.Valid(n)) && (e2.denom == 0 || e2.Valid(n))
    ensures r.None? <==> e1.denom != 0 && e2.denom != 0 && !e1.IsConstant() && !e2.IsConstant()
    ensures r.Some? ==> (r.value.denom == 0 <==> e1.denom == 0 || e2.denom == 0)
    ensures r.Some? && r.value.denom != 0 ==> r.value.Valid(n)
    ensures r.Some? && r.value.denom != 0 ==>
      forall x: seq<int> | |x| == n :: Val(r.value, x) == Val(e1, x) * Val(e2, x)
  {
    hide Val;
    if e1.denom == 0 {
      return Some(e1);
    }
    if e2.denom == 0 {
      return Some(e2);
    }
    var swap := !e2.IsConstant() && e1.IsConstant();
    var a, c := if swap then e2 else e1, if swap then e1 else e2;
    if !c.IsConstant() {
      return None;
    }
    var s := Scale(a, c.v[0], n);
    var q := ScaleDown(s, c.denom, n);
    forall x: seq<int> | |x| == n ensures Val(q, x) == Val(e1, x) * Val(e2, x) {
      ConstantVal(c, x);
      ScaledByFraction(Val(a, x), Val(s, x), Val(q, x), c.v[0] as real, c.denom as real);
    }
    return Some(q);
  }

  lemma ScaledByFraction(v: real, s: real, q: real, c: real, d: real)
    requires d != 0.0 && s == v * c && q * d == s
    ensures q == v * (c / d)
  {
    var y := c / d;
    assert y * d == c;
    assert (v * y) * d == v * (y * d);
    CancelReal(q, v * y, d);
  }

  // ---------------------------------------------------------------- modulo

  /** The expression over one more division that it does not use. */
  function Padded(e: Aff, divs: seq<Div>): Aff {
    e.(v := e.v + [0], divs := divs)
  }

  lemma PaddedVal(e: Aff, d: Div, x: seq<int>)
    requires e.Valid(|x|) && d.denom > 0 && |d.coeffs| == 1 + |x| + |e.divs|
    ensures Padded(e, e.divs + [d]).Valid(|x|) && Val(Padded(e, e.divs + [d]), x) == Val(e, x)
  {
    hide Args;
    var r := Padded(e, e.divs + [d]);
    ArgsExtended(x, e.divs, d);
    var a, a', n := Args(x, e.divs), Args(x, r.divs), |e.v|;
    IDotSame(r.v, a', e.v, a, n);
    assert IDot(r.v, a', n + 1) == IDot(r.v, a', n) + r.v[n] * a'[n];
    DivsExtended(e.divs, d, |x|);
    SameVal(e, r, x);
  }

  lemma SameVal(e: Aff, r: Aff, x: seq<int>)
    requires e.Shaped(|x|) && r.Shaped(|x|) && Num(r, x) == Num(e, x) && r.denom == e.denom
    ensures Val(r, x) == Val(e, x)
  {
    hide Num;
  }

  lemma ModReal(y: real, f: real, b: real, yb: real, fb: real)
    requires b > 0.0 && f == (y.Floor as real) && yb == y * b && fb == f * b
    ensures 0.0 <= yb - fb < b
  {
    var d := y - f;
    assert 0.0 <= d < 1.0;
    assert d * b == y * b - f * b;
    LessEqualProduct(0.0, d, b);
    LessProduct(d, 1.0, b);
    assert 0.0 * b == 0.0 && 1.0 * b == b;
  }

  /** r is e modulo m: between 0 and m, and m times an integer away from e. */
  ghost predicate IsModulo(r: Aff, e: Aff, m: int, n: nat) {
    && r.Valid(n) && e.Valid(n)
    && forall x: seq<int> | |x| == n ::
         0.0 <= Val(r, x) < (m as real) && IsMultiple(Val(e, x) - Val(r, x), m)
  }

  ghost predicate IsMultiple(y: real, m: int) {
    exists k: int :: y == MultipleOf(k, m)
  }

  ghost function MultipleOf(k: int, m: int): real {
    (k as real) * (m as real)
  }

  lemma ModuloReal(e: real, y: real, f: real, scaled: real, neg: real, r: real, m: int)
    requires m > 0 && y * (m as real) == e && f == (y.Floor as real)
    requires scaled == f * (m as real) && neg == scaled * ((-1) as real) && r == e + neg
    ensures 0.0 <= r < (m as real) && IsMultiple(e - r, m)
  {
    var b := m as real;
    ModReal(y, f, b, e, scaled);
    assert neg == -scaled;
    assert e - r == MultipleOf(y.Floor, m);
  }

  lemma ModuloValue(e: Aff, down: Aff, fl: Aff, scaled: Aff, neg: Aff, base: Aff, r: Aff, m: int, x: seq<int>)
    requires e.Valid(|x|) && down.Valid(|x|) && fl.Valid(|x|) && scaled.Valid(|x|) && neg.Valid(|x|)
    requires base.Valid(|x|) && r.Valid(|x|) && m > 0
    requires Val(down, x) * (m as real) == Val(e, x) && Val(fl, x) == (Val(down, x).Floor as real)
    requires Val(scaled, x) == Val(fl, x) * (m as real) && Val(neg, x) == Val(scaled, x) * ((-1) as real)
    requires Val(base, x) == Val(e, x) && Val(r, x) == Val(base, x) + Val(neg, x)
    ensures 0.0 <= Val(r, x) < (m as real) && IsMultiple(Val(e, x) - Val(r, x), m)
  {
    hide Val, IsMultiple;
    ModuloReal(Val(e, x), Val(down, x), Val(fl, x), Val(scaled, x), Val(neg, x), Val(r, x), m);
  }

  /** `isl_aff_mod_val` with an integer modulus; a modulus that is not positive is an error. */
  method ModVal(e: Aff, m: int, n: nat) returns (r: Option<Aff>)
    requires e.denom == 0 || e.Valid(n)
    ensures r.Some? <==> m > 0
    ensures r.Some? && e.denom == 0 ==> r.value == e
    ensures r.Some? && e.denom != 0 ==> IsModulo(r.value, e, m, n)
  {
    if m <= 0 {
      return None;
    }
    if e.denom == 0 {
      return Some(e);
    }
    var down := ScaleDown(e, m, n);
    var fl := Floor(down, n);
    var scaled := Scale(fl, m, n);
    var neg := Scale(scaled, -1, n);
    var base := if |fl.divs| == |e.divs| then e else Padded(e, fl.divs);
    forall x: seq<int> | |x| == n ensures base.Valid(n) && Val(base, x) == Val(e, x) {
      if |fl.divs| != |e.divs| { PaddedFor(e, fl, x); }
    }
    assert base.Valid(n) by { if |fl.divs| != |e.divs| { PaddedFor(e, fl, Zeroes(n)); } }
    var s := AddExpanded(base, neg, n);
    forall x: seq<int> | |x| == n
      ensures 0.0 <= Val(s, x) < (m as real) && IsMultiple(Val(e, x) - Val(s, x), m)
    {
      ModuloValue(e, down, fl, scaled, neg, base, s, m, x);
    }
    return Some(s);
  }

  lemma PaddedFor(e: Aff, fl: Aff, x: seq<int>)
    requires e.Valid(|x|) && fl.Valid(|x|) && ExtendsDivs(fl.divs, e.divs) && |fl.divs| != |e.divs|
    ensures Padded(e, fl.divs).Valid(|x|) && Val(Padded(e, fl.divs), x) == Val(e, x)
  {
    var d := fl.divs[|e.divs|];
    assert fl.divs == e.divs + [d];
    PaddedVal(e, d, x);
  }
}
