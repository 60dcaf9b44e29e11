/** `isl_seq_preimage`: substitute affine expressions with their own denominators
    for a range of variables of an affine row, in place on the result row. */
module Preimage {
  import opened IntArith
  import opened LinearAlgebra
  import opened Points

  /** Numbers of parameters, variables before, inside and after the substituted
      range, variables of the new range, and divs of both sides. */
  datatype Layout = Layout(nParam: nat, nBefore: nat, nIn: nat, nOut: nat, nAfter: nat, nDivMa: nat, nDivBmap: nat)
  {
    /** Constant and parameters. */
    function Head(): nat { 1 + nParam }

    function SrcSize(): nat { Head() + nBefore + nOut + nAfter + nDivBmap }

    function DstSize(): nat { Head() + nBefore + nIn + nAfter + nDivMa + nDivBmap }

    /** A substituted expression without its denominator. */
    function MaSize(): nat { Head() + nIn + nDivMa }
  }

  /** Values for everything that stays: head (1 and the parameters), the
      variables before, the new variables, those after, and both groups of divs. */
  datatype Assignment = Assignment(head: Vec, before: Vec, inn: Vec, after: Vec, divMa: Vec, divBmap: Vec)
  {
    ghost predicate Fits(L: Layout) {
      && |head| == L.Head() && |before| == L.nBefore && |inn| == L.nIn && |after| == L.nAfter
      && |divMa| == L.nDivMa && |divBmap| == L.nDivBmap
    }

    /** The arguments of the result row. */
    ghost function DstPoint(): Vec { head + before + inn + after + divMa + divBmap }

    /** The arguments of a substituted expression. */
    ghost function MaPoint(): Vec { head + inn + divMa }

    /** The arguments of the source row, with values v for the substituted range. */
    ghost function SrcPoint(v: Vec): Vec { head + before + v + after + divBmap }
  }

  /** Value of a row at a point. */
  ghost function Value(r: Row, x: Vec): real
    requires |r| == |x|
  {
    Dot(Lift(r), x, |r|)
  }

  /** The expressions: a positive denominator followed by the numerator. */
  predicate ValidMa(ma: seq<Row>, L: Layout) {
    |ma| == L.nOut && forall i | 0 <= i < L.nOut :: |ma[i]| == 1 + L.MaSize() && ma[i][0] > 0
  }

  /** Value of expression i. */
  ghost function MaValue(ma: seq<Row>, L: Layout, x: Assignment, i: nat): real
    requires ValidMa(ma, L) && x.Fits(L) && i < L.nOut
  {
    Value(ma[i][1..], x.MaPoint()) / (ma[i][0] as real)
  }

  ghost function MaValues(ma: seq<Row>, L: Layout, x: Assignment): (v: Vec)
    requires ValidMa(ma, L) && x.Fits(L)
    ensures |v| == L.nOut
  {
    seq(L.nOut, i requires 0 <= i < L.nOut => MaValue(ma, L, x, i))
  }

  /** Value of the source row after the substitution. */
  ghost function SrcValue(s: Row, ma: seq<Row>, L: Layout, x: Assignment): real
    requires |s| == L.SrcSize() && ValidMa(ma, L) && x.Fits(L)
  {
    Value(s, x.SrcPoint(MaValues(ma, L, x)))
  }

  // ---------------------------------------------------------------- values of concatenations

  lemma {:induction false} DotSame(v: Vec, x: Vec, v': Vec, x': Vec, n: nat)
    requires n <= |v| && n <= |x| && n <= |v'| && n <= |x'|
    requires forall k | 0 <= k < n :: v[k] == v'[k] && x[k] == x'[k]
    ensures Dot(v, x, n) == Dot(v', x', n)
  {
    if n > 0 { DotSame(v, x, v', x', n - 1); }
  }

  lemma {:induction false} DotConcat(a: Row, b: Row, x: Vec, y: Vec, n: nat)
    requires |a| == |x| && |b| == |y| && n <= |b|
    ensures Dot(Lift(a + b), x + y, |a| + n) == Value(a, x) + Dot(Lift(b), y, n)
  {
    if n == 0 {
      DotSame(Lift(a + b), x + y, Lift(a), x, |a|);
    } else {
      DotConcat(a, b, x, y, n - 1);
    }
  }

  lemma ValueConcat(a: Row, b: Row, x: Vec, y: Vec)
    requires |a| == |x| && |b| == |y|
    ensures Value(a + b, x + y) == Value(a, x) + Value(b, y)
  {
    DotConcat(a, b, x, y, |b|);
  }

  function Zeros(n: nat): (r: Row)
    ensures |r| == n && forall k | 0 <= k < n :: r[k] == 0
  {
    seq(n, _ => 0)
  }

  lemma ValueZeros(x: Vec)
    ensures Value(Zeros(|x|), x) == 0.0
  {
    DotZero(Lift(Zeros(|x|)), x, |x|);
  }

  predicate IsCombination(d: Row, r: Row, e: Row, c1: int, c2: int) {
    |r| == |e| == |d| && forall k | 0 <= k < |d| :: d[k] == c1 * r[k] + c2 * e[k]
  }

  /** Value of c1 * r + c2 * e. */
  lemma ValueCombination(r: Row, e: Row, d: Row, c1: int, c2: int, x: Vec)
    requires IsCombination(d, r, e, c1, c2) && |d| == |x|
    ensures Value(d, x) == (c1 as real) * Value(r, x) + (c2 as real) * Value(e, x)
  {
    CombinationDot(r, e, d, c1, c2, x, |d|);
  }

  lemma {:induction false} CombinationDot(r: Row, e: Row, d: Row, c1: int, c2: int, x: Vec, n: nat)
    requires IsCombination(d, r, e, c1, c2) && |r| == |e| == |d| == |x| && n <= |d|
    ensures Dot(Lift(d), x, n) == (c1 as real) * Dot(Lift(r), x, n) + (c2 as real) * Dot(Lift(e), x, n)
  {
    if n > 0 {
      hide IsCombination, Dot;
      var k := n - 1;
      CombinationDot(r, e, d, c1, c2, x, k);
      RealEntry(d, r, e, c1, c2, k);
      DotLast(r, x, k);
      DotLast(e, x, k);
      DotLast(d, x, k);
      CombinationStep(c1 as real, c2 as real, Dot(Lift(r), x, k), Dot(Lift(e), x, k), r[k] as real, e[k] as real, x[k],
                      Dot(Lift(d), x, k), d[k] as real);
    }
  }

  lemma RealEntry(d: Row, r: Row, e: Row, c1: int, c2: int, k: nat)
    requires IsCombination(d, r, e, c1, c2) && k < |d|
    ensures d[k] as real == (c1 as real) * (r[k] as real) + (c2 as real) * (e[k] as real)
  {
    MulReal(c1, r[k]);
    MulReal(c2, e[k]);
  }

  lemma CombinationStep(a: real, b: real, s: real, t: real, r: real, e: real, x: real, u: real, d: real)
    requires u == a * s + b * t && d == a * r + b * e
    ensures u + d * x == a * (s + r * x) + b * (t + e * x)
  {
    CombinationTerm(a, r, b, e, x, s, t);
  }

  lemma DotLast(r: Row, x: Vec, k: nat)
    requires k < |r| && k < |x|
    ensures Dot(Lift(r), x, k + 1) == Dot(Lift(r), x, k) + (r[k] as real) * x[k]
  {
  }

  lemma CombinationTerm(a: real, r: real, b: real, e: real, x: real, s: real, t: real)
    ensures a * s + b * t + (a * r + b * e) * x == a * (s + r * x) + b * (t + e * x)
  {
  }

  // ---------------------------------------------------------------- the row before and during the loop

  /** The source row with zeros for the new variables and the new divs, and
      without the substituted range: the start of the result row. */
  function Base(s: Row, L: Layout): (r: Row)
    requires |s| == L.SrcSize()
    ensures |r| == L.DstSize()
  {
    var o := L.Head() + L.nBefore;
    s[..o] + Zeros(L.nIn) + s[o + L.nOut..o + L.nOut + L.nAfter] + Zeros(L.nDivMa) + s[o + L.nOut + L.nAfter..]
  }

  /** The numerator of an expression, spread over the places of the result row. */
  function Spread(m: Row, L: Layout): (r: Row)
    requires |m| == 1 + L.MaSize()
    ensures |r| == L.DstSize()
  {
    var h := L.Head();
    m[1..1 + h] + Zeros(L.nBefore) + m[1 + h..1 + h + L.nIn] + Zeros(L.nAfter) + m[1 + h + L.nIn..] + Zeros(L.nDivBmap)
  }

  lemma SpreadValue(m: Row, L: Layout, x: Assignment)
    requires |m| == 1 + L.MaSize() && x.Fits(L)
    ensures Value(Spread(m, L), x.DstPoint()) == Value(m[1..], x.MaPoint())
  {
    var h := L.Head();
    var a, b, c := m[1..1 + h], m[1 + h..1 + h + L.nIn], m[1 + h + L.nIn..];
    assert m[1..] == a + b + c;
    ValueConcat(a, b, x.head, x.inn);
    ValueConcat(a + b, c, x.head + x.inn, x.divMa);
    ValueZeros(x.before);
    ValueZeros(x.after);
    ValueZeros(x.divBmap);
    ValueConcat(a, Zeros(L.nBefore), x.head, x.before);
    ValueConcat(a + Zeros(L.nBefore), b, x.head + x.before, x.inn);
    ValueConcat(a + Zeros(L.nBefore) + b, Zeros(L.nAfter), x.head + x.before + x.inn, x.after);
    ValueConcat(a + Zeros(L.nBefore) + b + Zeros(L.nAfter), c, x.head + x.before + x.inn + x.after, x.divMa);
    ValueConcat(a + Zeros(L.nBefore) + b + Zeros(L.nAfter) + c, Zeros(L.nDivBmap),
                x.head + x.before + x.inn + x.after + x.divMa, x.divBmap);
  }

  /** The substituted part of the source value, up to variable n. */
  ghost function Substituted(s: Row, ma: seq<Row>, L: Layout, x: Assignment, n: nat): real
    requires |s| == L.SrcSize() && ValidMa(ma, L) && x.Fits(L) && n <= L.nOut
  {
    var o := L.Head() + L.nBefore;
    Dot(Lift(s[o..o + L.nOut]), MaValues(ma, L, x), n)
  }

  lemma BaseValue(s: Row, ma: seq<Row>, L: Layout, x: Assignment)
    requires |s| == L.SrcSize() && ValidMa(ma, L) && x.Fits(L)
    ensures Value(Base(s, L), x.DstPoint()) + Substituted(s, ma, L, x, L.nOut) == SrcValue(s, ma, L, x)
  {
    hide Dot, MaValues;
    var o, v := L.Head() + L.nBefore, MaValues(ma, L, x);
    var a, b, c, d := s[..o], s[o..o + L.nOut], s[o + L.nOut..o + L.nOut + L.nAfter], s[o + L.nOut + L.nAfter..];
    var hb := x.head + x.before;
    assert s == a + b + c + d;
    ValueConcat(a, b, hb, v);
    ValueConcat(a + b, c, hb + v, x.after);
    ValueConcat(a + b + c, d, hb + v + x.after, x.divBmap);
    ValueZeros(x.inn);
    ValueZeros(x.divMa);
    ValueConcat(a, Zeros(L.nIn), hb, x.inn);
    ValueConcat(a + Zeros(L.nIn), c, hb + x.inn, x.after);
    ValueConcat(a + Zeros(L.nIn) + c, Zeros(L.nDivMa), hb + x.inn + x.after, x.divMa);
    ValueConcat(a + Zeros(L.nIn) + c + Zeros(L.nDivMa), d, hb + x.inn + x.after + x.divMa, x.divBmap);
  }

  /** d is f times the source row with the first n variables substituted. */
  ghost predicate Reached(d: Row, s: Row, ma: seq<Row>, L: Layout, f: int, n: nat) {
    && |d| == L.DstSize() && |s| == L.SrcSize() && ValidMa(ma, L) && n <= L.nOut && f > 0
    && forall x: Assignment | x.Fits(L) ::
         Value(d, x.DstPoint()) == (f as real) * (Value(Base(s, L), x.DstPoint()) + Substituted(s, ma, L, x, n))
  }

  /** The substitution of variable n with factors c1 and c2. */
  ghost predicate SubstitutedBy(d: Row, d': Row, s: Row, ma: seq<Row>, L: Layout, n: nat, c1: int, c2: int)
    requires |s| == L.SrcSize() && ValidMa(ma, L) && n < L.nOut
  {
    && |d| == |d'| == L.DstSize()
    && forall k | 0 <= k < |d| :: d'[k] == c1 * d[k] + c2 * Spread(ma[n], L)[k]
  }

  lemma StepArithmetic(f: real, c1: real, c2: real, m: real, b: real, base: real, num: real)
    requires m != 0.0 && c2 * m == f * b * c1
    ensures c1 * (f * base) + c2 * num == (f * c1) * (base + b * (num / m))
  {
    var q := num / m;
    assert num == q * m;
    assert c2 * (q * m) == (c2 * m) * q;
  }

  lemma ReachedStepAt(d: Row, d': Row, s: Row, ma: seq<Row>, L: Layout, f: int, n: nat, c1: int, c2: int, x: Assignment)
    requires Reached(d, s, ma, L, f, n) && n < L.nOut && x.Fits(L)
    requires SubstitutedBy(d, d', s, ma, L, n, c1, c2)
    requires c1 > 0 && c2 * ma[n][0] == f * s[L.Head() + L.nBefore + n] * c1
    ensures Value(d', x.DstPoint())
         == ((f * c1) as real) * (Value(Base(s, L), x.DstPoint()) + Substituted(s, ma, L, x, n + 1))
  {
    hide Value, Spread, Base, Substituted;
    var e, b, m := Spread(ma[n], L), s[L.Head() + L.nBefore + n], ma[n][0];
    var base, num := Value(Base(s, L), x.DstPoint()) + Substituted(s, ma, L, x, n), Value(ma[n][1..], x.MaPoint());
    ValueCombination(d, e, d', c1, c2, x.DstPoint());
    SpreadValue(ma[n], L, x);
    RealFactors(f, b, c1, c2, m);
    StepArithmetic(f as real, c1 as real, c2 as real, m as real, b as real, base, num);
    SubstitutedNext(s, ma, L, x, n);
    assert MaValue(ma, L, x, n) == num / (m as real);
    var g, h := f as real, c1 as real;
    assert Value(d', x.DstPoint()) == h * (g * base) + (c2 as real) * num;
  }

  lemma RealFactors(f: int, b: int, c1: int, c2: int, m: int)
    requires c2 * m == f * b * c1
    ensures (c2 as real) * (m as real) == (f as real) * (b as real) * (c1 as real)
    ensures ((f * c1) as real) == (f as real) * (c1 as real)
  {
    MulReal(c2, m);
    MulReal(f * b, c1);
    MulReal(f, b);
    MulReal(f, c1);
  }

  lemma SubstitutedNext(s: Row, ma: seq<Row>, L: Layout, x: Assignment, n: nat)
    requires |s| == L.SrcSize() && ValidMa(ma, L) && x.Fits(L) && n < L.nOut
    ensures Substituted(s, ma, L, x, n + 1)
         == Substituted(s, ma, L, x, n) + (s[L.Head() + L.nBefore + n] as real) * MaValue(ma, L, x, n)
  {
    var o := L.Head() + L.nBefore;
    assert s[o..o + L.nOut][n] == s[o + n];
  }

  lemma ReachedStep(d: Row, d': Row, s: Row, ma: seq<Row>, L: Layout, f: int, n: nat, c1: int, c2: int)
    requires Reached(d, s, ma, L, f, n) && n < L.nOut
    requires SubstitutedBy(d, d', s, ma, L, n, c1, c2)
    requires c1 > 0 && c2 * ma[n][0] == f * s[L.Head() + L.nBefore + n] * c1
    ensures f * c1 > 0 && Reached(d', s, ma, L, f * c1, n + 1)
  {
    hide Value, Base, Substituted, Spread;
    PositiveFactors(f, c1);
    forall x: Assignment | x.Fits(L)
      ensures Value(d', x.DstPoint())
           == ((f * c1) as real) * (Value(Base(s, L), x.DstPoint()) + Substituted(s, ma, L, x, n + 1))
    {
      ReachedStepAt(d, d', s, ma, L, f, n, c1, c2, x);
    }
  }

  lemma PositiveFactors(f: int, c: int)
    requires f > 0 && c > 0
    ensures f * c > 0
  {
  }

  /** A variable with coefficient zero needs no substitution. */
  lemma ReachedSkip(d: Row, s: Row, ma: seq<Row>, L: Layout, f: int, n: nat)
    requires Reached(d, s, ma, L, f, n) && n < L.nOut && s[L.Head() + L.nBefore + n] == 0
    ensures Reached(d, s, ma, L, f, n + 1)
  {
    forall x: Assignment | x.Fits(L) ensures Substituted(s, ma, L, x, n + 1) == Substituted(s, ma, L, x, n) {
      SubstitutedNext(s, ma, L, x, n);
    }
  }

  /** c1 and c2 after removing the common factor still balance. */
  lemma ReducedFactors(m: int, fb: int) returns (c1: int, c2: int)
    requires m > 0
    ensures c1 == DivExact(m, Gcd(m, fb)) && c2 == DivExact(fb, Gcd(m, fb))
    ensures c1 > 0 && c2 * m == fb * c1
  {
    c1, c2 := GcdDivides(m, fb);
    CrossMultiple(m, fb, c1, c2, Gcd(m, fb));
    PositiveQuotient(m, c1, Gcd(m, fb));
  }

  lemma NonPositiveMultiple(q: int, g: int)
    requires g > 0
    ensures q <= 0 ==> q * g <= 0
  {
  }

  lemma PositiveQuotient(m: int, q: int, g: int)
    requires m > 0 && g > 0 && m == q * g
    ensures q > 0
  {
    NonPositiveMultiple(q, g);
  }

  // ---------------------------------------------------------------- the loops over the result row

  /** `isl_seq_cpy` of len entries. */
  method Copy(dst: array<int>, o: nat, src: seq<int>, p: nat, len: nat)
    requires o + len <= dst.Length && p + len <= |src|
    modifies dst
    ensures forall k | 0 <= k < dst.Length :: dst[k] == if o <= k < o + len then src[p + k - o] else old(dst[k])
  {
    var i := 0;
    while i < len
      invariant 0 <= i <= len
      invariant forall k | 0 <= k < dst.Length :: dst[k] == if o <= k < o + i then src[p + k - o] else old(dst[k])
    {
      dst[o + i] := src[p + i];
      i := i + 1;
    }
  }

  /** `isl_seq_clr` of len entries. */
  method Clear(dst: array<int>, o: nat, len: nat)
    requires o + len <= dst.Length
    modifies dst
    ensures forall k | 0 <= k < dst.Length :: dst[k] == if o <= k < o + len then 0 else old(dst[k])
  {
    var i := 0;
    while i < len
      invariant 0 <= i <= len
      invariant forall k | 0 <= k < dst.Length :: dst[k] == if o <= k < o + i then 0 else old(dst[k])
    {
      dst[o + i] := 0;
      i := i + 1;
    }
  }

  /** `isl_seq_combine` of len entries of dst with entries of m from position p. */
  method CombineInto(dst: array<int>, o: nat, c1: int, c2: int, m: seq<int>, p: nat, len: nat)
    requires o + len <= dst.Length && p + len <= |m|
    modifies dst
    ensures forall k | 0 <= k < dst.Length ::
      dst[k] == if o <= k < o + len then c1 * old(dst[k]) + c2 * m[p + k - o] else old(dst[k])
  {
    var i := 0;
    while i < len
      invariant 0 <= i <= len
      invariant forall k | 0 <= k < dst.Length ::
        dst[k] == if o <= k < o + i then c1 * old(dst[k]) + c2 * m[p + k - o] else old(dst[k])
    {
      dst[o + i] := c1 * dst[o + i] + c2 * m[p + i];
      i := i + 1;
    }
  }

  /** `isl_seq_scale` of len entries. */
  method ScaleInto(dst: array<int>, o: nat, c1: int, len: nat)
    requires o + len <= dst.Length
    modifies dst
    ensures forall k | 0 <= k < dst.Length ::
      dst[k] == if o <= k < o + len then c1 * old(dst[k]) else old(dst[k])
  {
    var i := 0;
    while i < len
      invariant 0 <= i <= len
      invariant forall k | 0 <= k < dst.Length :: dst[k] == if o <= k < o + i then c1 * old(dst[k]) else old(dst[k])
    {
      dst[o + i] := c1 * dst[o + i];
      i := i + 1;
    }
  }

  /** The copies and clears before the loop. */
  method Initialize(dst: array<int>, src: seq<int>, L: Layout, hasDenom: nat)
    requires hasDenom <= 1 && dst.Length == hasDenom + L.DstSize() && |src| == hasDenom + L.SrcSize()
    modifies dst
    ensures dst[hasDenom..] == Base(src[hasDenom..], L) && dst[..hasDenom] == src[..hasDenom]
  {
    var oDst, oSrc := hasDenom + 1 + L.nParam + L.nBefore, hasDenom + 1 + L.nParam + L.nBefore;
    Copy(dst, 0, src, 0, oDst);
    Clear(dst, oDst, L.nIn);
    oDst, oSrc := oDst + L.nIn, oSrc + L.nOut;
    Copy(dst, oDst, src, oSrc, L.nAfter);
    oDst, oSrc := oDst + L.nAfter, oSrc + L.nAfter;
    Clear(dst, oDst, L.nDivMa);
    oDst := oDst + L.nDivMa;
    Copy(dst, oDst, src, oSrc, L.nDivBmap);
    forall k | 0 <= k < L.DstSize() ensures dst[hasDenom + k] == Base(src[hasDenom..], L)[k] {
      BaseAt(src[hasDenom..], L, k);
    }
  }

  lemma BaseAt(s: Row, L: Layout, k: nat)
    requires |s| == L.SrcSize() && k < L.DstSize()
    ensures var o := L.Head() + L.nBefore;
      Base(s, L)[k] ==
        if k < o then s[k]
        else if k < o + L.nIn then 0
        else if k < o + L.nIn + L.nAfter then s[k - L.nIn + L.nOut]
        else if k < o + L.nIn + L.nAfter + L.nDivMa then 0
        else s[k - L.nIn - L.nDivMa + L.nOut]
  {
  }

  /** The updates of the result row for one variable. */
  method SubstituteOne(dst: array<int>, m: Row, L: Layout, hasDenom: nat, c1: int, c2: int)
    requires hasDenom <= 1 && dst.Length == hasDenom + L.DstSize() && |m| == 1 + L.MaSize()
    modifies dst
    ensures forall k | 0 <= k < L.DstSize() ::
      dst[hasDenom + k] == c1 * old(dst[hasDenom + k]) + c2 * Spread(m, L)[k]
    ensures hasDenom == 1 ==> dst[0] == old(dst[0]) * c1
  {
    hide Spread;
    var oDst, oSrc := hasDenom, 1;
    CombineInto(dst, oDst, c1, c2, m, oSrc, 1 + L.nParam);
    oDst, oSrc := oDst + 1 + L.nParam, oSrc + 1 + L.nParam;
    ScaleInto(dst, oDst, c1, L.nBefore);
    oDst := oDst + L.nBefore;
    CombineInto(dst, oDst, c1, c2, m, oSrc, L.nIn);
    oDst, oSrc := oDst + L.nIn, oSrc + L.nIn;
    ScaleInto(dst, oDst, c1, L.nAfter);
    oDst := oDst + L.nAfter;
    CombineInto(dst, oDst, c1, c2, m, oSrc, L.nDivMa);
    oDst, oSrc := oDst + L.nDivMa, oSrc + L.nDivMa;
    ScaleInto(dst, oDst, c1, L.nDivBmap);
    if hasDenom == 1 {
      dst[0] := dst[0] * c1;
    }
    forall k | 0 <= k < L.DstSize()
      ensures dst[hasDenom + k] == c1 * old(dst[hasDenom + k]) + c2 * Spread(m, L)[k]
    {
      SpreadAt(m, L, k);
    }
  }

  lemma SpreadAt(m: Row, L: Layout, k: nat)
    requires |m| == 1 + L.MaSize() && k < L.DstSize()
    ensures var h := L.Head();
      Spread(m, L)[k] ==
        if k < h then m[1 + k]
        else if k < h + L.nBefore then 0
        else if k < h + L.nBefore + L.nIn then m[1 + k - L.nBefore]
        else if k < h + L.nBefore + L.nIn + L.nAfter then 0
        else if k < h + L.nBefore + L.nIn + L.nAfter + L.nDivMa then m[1 + k - L.nBefore - L.nAfter]
        else 0
  {
  }

  // ---------------------------------------------------------------- the factor

  /** h times each of the first n replaced coefficients is divisible by the denominator
      of its expression. */
  predicate Clears(h: int, s: Row, ma: seq<Row>, L: Layout, n: nat)
    requires |s| == L.SrcSize() && ValidMa(ma, L) && n <= L.nOut
  {
    forall j | 0 <= j < n :: ClearsAt(h, s[L.Head() + L.nBefore + j], ma[j][0])
  }

  predicate ClearsAt(h: int, b: int, m: int)
    requires m != 0
  {
    (h * b) % m == 0
  }

  /** f is the least factor that clears the denominators: it divides every other. */
  ghost predicate Least(f: int, s: Row, ma: seq<Row>, L: Layout, n: nat)
    requires |s| == L.SrcSize() && ValidMa(ma, L) && n <= L.nOut
  {
    f > 0 && Clears(f, s, ma, L, n) && forall h: int | Clears(h, s, ma, L, n) :: h % f == 0
  }

  lemma LeastNext(f: int, s: Row, ma: seq<Row>, L: Layout, n: nat, c: int)
    requires |s| == L.SrcSize() && ValidMa(ma, L) && n < L.nOut && Least(f, s, ma, L, n)
    requires var b := s[L.Head() + L.nBefore + n];
      c == if b == 0 then 1 else DivExact(ma[n][0], Gcd(ma[n][0], f * b))
    ensures f * c > 0 && Least(f * c, s, ma, L, n + 1)
  {
    var b, m := s[L.Head() + L.nBefore + n], ma[n][0];
    FactorStep(f, b, m, c);
    hide ClearsAt, Gcd;
    forall j | 0 <= j < n + 1 ensures ClearsAt(f * c, s[L.Head() + L.nBefore + j], ma[j][0]) {
      if j < n { ClearsMultiple(f, c, s[L.Head() + L.nBefore + j], ma[j][0]); }
    }
    forall h: int | Clears(h, s, ma, L, n + 1) ensures h % (f * c) == 0 {
      assert Clears(h, s, ma, L, n) && ClearsAt(h, b, m);
      FactorLeast(f, b, m, c, h);
    }
  }

  lemma ClearsMultiple(f: int, c: int, b: int, m: int)
    requires m != 0 && ClearsAt(f, b, m)
    ensures ClearsAt(f * c, b, m)
  {
    var q := (f * b) / m;
    assert f * b == q * m;
    assert (f * c) * b == (q * c) * m by { assert (f * c) * b == c * (f * b) && (q * c) * m == c * (q * m); }
    ExactQuotient(q * c, m);
  }

  /** The reduced denominator clears the new one. */
  lemma FactorStep(f: int, b: int, m: int, c: int)
    requires f > 0 && m > 0 && c == if b == 0 then 1 else DivExact(m, Gcd(m, f * b))
    ensures c > 0 && f * c > 0 && ClearsAt(f * c, b, m)
  {
    if b != 0 {
      var c1, c2 := ReducedFactors(m, f * b);
      hide Gcd;
      Rotated(f, c, b);
      ExactQuotient(c2, m);
    }
    PositiveFactors(f, c);
  }

  lemma Rotated(f: int, c: int, b: int)
    ensures (f * c) * b == (f * b) * c
  {
  }

  lemma FactorLeast(f: int, b: int, m: int, c: int, h: int)
    requires f > 0 && m > 0 && c == if b == 0 then 1 else DivExact(m, Gcd(m, f * b))
    requires c > 0 && f * c > 0 && h % f == 0 && ClearsAt(h, b, m)
    ensures h % (f * c) == 0
  {
    if b != 0 {
      var z := h / f;
      assert h == z * f;
      var q := (h * b) / m;
      assert h * b == q * m;
      var y := CoprimeShare(m, f * b, z, q, c);
      assert h == y * (f * c) by { assert z == y * c; assert (y * c) * f == y * (f * c); }
      ExactQuotient(y, f * c);
    }
  }

  /** What is left of m after the common factor with e divides z if m divides z e. */
  lemma CoprimeShare(m: int, e: int, z: int, q: int, c: int) returns (y: int)
    requires m > 0 && c == DivExact(m, Gcd(m, e)) && z * e == q * m
    ensures z == y * c
  {
    var g := Gcd(m, e);
    var c1, c2 := GcdDivides(m, e);
    var u, v := Bezout(m, e);
    hide Gcd;
    y := z * u + v * q;
    BezoutShare(u, m, v, e, g, z, q);
    Associated(y, c, g);
    CancelFactor(y * c, z, g);
  }

  lemma BezoutShare(u: int, m: int, v: int, e: int, g: int, z: int, q: int)
    requires u * m + v * e == g && z * e == q * m
    ensures (z * u + v * q) * m == z * g
  {
    Associated(z, u, m);
    Associated(v, q, m);
    Associated(v, z, e);
    Associated(z, v, e);
    assert (z * u + v * q) * m == (z * u) * m + (v * q) * m;
    assert z * (u * m + v * e) == z * (u * m) + z * (v * e);
    assert v * z == z * v;
  }

  lemma Associated(a: int, b: int, c: int)
    ensures (a * b) * c == a * (b * c)
  {
  }

  lemma CancelFactor(a: int, b: int, g: int)
    requires g > 0 && a * g == b * g
    ensures a == b
  {
    var t := a - b;
    assert t * g == 0;
    if t != 0 { MulAtLeast(t, g); }
  }

  /** d is f > 0 times the source row after all substitutions. */
  ghost predicate IsPreimage(d: Row, s: Row, ma: seq<Row>, L: Layout, f: int) {
    && |d| == L.DstSize() && |s| == L.SrcSize() && ValidMa(ma, L) && f > 0
    && forall x: Assignment | x.Fits(L) ::
         Value(d, x.DstPoint()) == (f as real) * SrcValue(s, ma, L, x)
  }

  lemma ReachedAll(d: Row, s: Row, ma: seq<Row>, L: Layout, f: int)
    requires Reached(d, s, ma, L, f, L.nOut)
    ensures IsPreimage(d, s, ma, L, f)
  {
    hide Value, Base, Substituted, SrcValue;
    forall x: Assignment | x.Fits(L) ensures Value(d, x.DstPoint()) == (f as real) * SrcValue(s, ma, L, x) {
      BaseValue(s, ma, L, x);
    }
  }

  lemma ReachedNone(s: Row, ma: seq<Row>, L: Layout)
    requires |s| == L.SrcSize() && ValidMa(ma, L)
    ensures Reached(Base(s, L), s, ma, L, 1, 0)
  {
  }

  /** `isl_seq_preimage`: the result row is a positive multiple f of the source
      row with the expressions substituted, and a leading denominator is
      multiplied by the same f. */
  method SeqPreimage(dst: array<int>, src: seq<int>, ma: seq<Row>, L: Layout, hasDenom: nat) returns (f: int)
    requires hasDenom <= 1 && dst.Length == hasDenom + L.DstSize() && |src| == hasDenom + L.SrcSize()
    requires ValidMa(ma, L)
    modifies dst
    ensures IsPreimage(dst[hasDenom..], src[hasDenom..], ma, L, f)
    ensures Least(f, src[hasDenom..], ma, L, L.nOut)
    ensures hasDenom == 1 ==> dst[0] == src[0] * f
  {
    hide Reached, Spread, Base, Clears;
    Initialize(dst, src, L, hasDenom);
    ghost var s := src[hasDenom..];
    ReachedNone(s, ma, L);
    f := 1;
    LeastNone(s, ma, L);
    var i := 0;
    while i < L.nOut
      invariant 0 <= i <= L.nOut && f > 0 && Least(f, s, ma, L, i)
      invariant Reached(dst[hasDenom..], s, ma, L, f, i)
      invariant hasDenom == 1 ==> dst[0] == src[0] * f
    {
      f := SubstituteVariable(dst, src, ma, L, hasDenom, f, i);
      i := i + 1;
    }
    ReachedAll(dst[hasDenom..], s, ma, L, f);
  }

  lemma LeastNone(s: Row, ma: seq<Row>, L: Layout)
    requires |s| == L.SrcSize() && ValidMa(ma, L)
    ensures Least(1, s, ma, L, 0)
  {
  }

  /** One pass of the loop over the substituted variables. */
  method SubstituteVariable(dst: array<int>, src: seq<int>, ma: seq<Row>, L: Layout, hasDenom: nat, f: int, i: nat)
    returns (f': int)
    requires hasDenom <= 1 && dst.Length == hasDenom + L.DstSize() && |src| == hasDenom + L.SrcSize()
    requires ValidMa(ma, L) && i < L.nOut && f > 0 && Reached(dst[hasDenom..], src[hasDenom..], ma, L, f, i)
    requires hasDenom == 1 ==> dst[0] == src[0] * f
    modifies dst
    ensures f' > 0 && Reached(dst[hasDenom..], src[hasDenom..], ma, L, f', i + 1)
    ensures Least(f, src[hasDenom..], ma, L, i) ==> Least(f', src[hasDenom..], ma, L, i + 1)
    ensures hasDenom == 1 ==> dst[0] == src[0] * f'
  {
    hide Reached, Spread, Base, Least, Gcd;
    var offset := hasDenom + 1 + L.nParam + L.nBefore + i;
    if src[offset] == 0 {
      ReachedSkip(dst[hasDenom..], src[hasDenom..], ma, L, f, i);
      LeastStep(f, src[hasDenom..], ma, L, i, 1);
      return f;
    }
    ghost var d := dst[hasDenom..];
    var c1 := ma[i][0];
    var c2 := f * src[offset];
    var g := Gcd(c1, c2);
    ghost var r1, r2 := ReducedFactors(c1, c2);
    c1 := DivExact(c1, g);
    c2 := DivExact(c2, g);
    f' := f * c1;
    LeastStep(f, src[hasDenom..], ma, L, i, c1);
    SubstituteOne(dst, ma[i], L, hasDenom, c1, c2);
    ReachedStep(d, dst[hasDenom..], src[hasDenom..], ma, L, f, i, c1, c2);
    if hasDenom == 1 { FactorOut(src[0], f, c1); }
  }

  lemma LeastStep(f: int, s: Row, ma: seq<Row>, L: Layout, n: nat, c: int)
    requires |s| == L.SrcSize() && ValidMa(ma, L) && n < L.nOut
    requires var b := s[L.Head() + L.nBefore + n];
      c == if b == 0 then 1 else DivExact(ma[n][0], Gcd(ma[n][0], f * b))
    ensures Least(f, s, ma, L, n) ==> Least(f * c, s, ma, L, n + 1)
  {
    if Least(f, s, ma, L, n) { LeastNext(f, s, ma, L, n, c); }
  }

  lemma FactorOut(a: int, f: int, c: int)
    ensures (a * f) * c == a * (f * c)
  {
  }

  /** With denominators the quotient is exactly the source value: the common factor cancels. */
  lemma QuotientPreserved(d: Row, s: Row, ma: seq<Row>, L: Layout, f: int, denom: int, denom': int, x: Assignment)
    requires IsPreimage(d, s, ma, L, f) && x.Fits(L) && denom > 0 && denom' == denom * f
    ensures denom' > 0
    ensures Value(d, x.DstPoint()) / (denom' as real) == SrcValue(s, ma, L, x) / (denom as real)
  {
    MulReal(denom, f);
    assert denom' > 0;
    CancelCommon(SrcValue(s, ma, L, x), f as real, denom as real);
  }

  lemma CancelCommon(v: real, f: real, m: real)
    requires f > 0.0 && m > 0.0
    ensures m * f > 0.0 && (f * v) / (m * f) == v / m
  {
    var q := v / m;
    assert v == q * m;
    assert f * (q * m) == q * (m * f);
  }
}
