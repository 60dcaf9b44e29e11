/** The sum of two quasi-affine expressions over different divisions: both are
    rewritten over the divisions of the first followed by those of the second. */
module AffSum {
  import opened LinearAlgebra
  import opened Points
  import opened QuasiAffine

  /** Zero coefficients for m divisions inserted before the own divisions. */
  function Spread(c: Row, n: nat, m: nat): (r: Row)
    requires 1 + n <= |c|
    ensures |r| == |c| + m
  {
    c[..1 + n] + Zeroes(m) + c[1 + n..]
  }

  function SpreadDivs(divs: seq<Div>, n: nat, m: nat): (r: seq<Div>)
    requires ValidDivs(divs, n)
    ensures |r| == |divs|
  {
    seq(|divs|, k requires 0 <= k < |divs| => divs[k].(coeffs := Spread(divs[k].coeffs, n, m)))
  }

  /** The arguments over the first divisions, then the own divisions of the second. */
  ghost function Widened(a: Row, b: Row, n: nat): Row
    requires 1 + n <= |a| && 1 + n <= |b|
  {
    a + b[1 + n..]
  }

  lemma {:induction false} IDotSkip(r: Row, a: Row, l: nat, k: nat)
    requires l <= k <= |r| && k <= |a|
    requires forall i | l <= i < k :: r[i] == 0
    ensures IDot(r, a, k) == IDot(r, a, l)
  {
    if k > l { IDotSkip(r, a, l, k - 1); }
  }

  /** The inserted zeroes do not change the inner product. */
  lemma {:induction false} IDotSpread(c: Row, a: Row, b: Row, n: nat, l: nat)
    requires 1 + n <= |a| && 1 + n <= l <= |c| && l <= |b| && a[..1 + n] == b[..1 + n]
    ensures IDot(Spread(c, n, |a| - 1 - n), Widened(a, b, n), l + |a| - 1 - n) == IDot(c, b, l)
  {
    var m := |a| - 1 - n;
    var s, w := Spread(c, n, m), Widened(a, b, n);
    if l == 1 + n {
      IDotSkip(s, w, 1 + n, 1 + n + m);
      forall k | 0 <= k < 1 + n ensures s[k] == c[k] && w[k] == b[k] {
        assert a[..1 + n][k] == b[..1 + n][k];
      }
      IDotSame(s, w, c, b, 1 + n);
    } else {
      IDotSpread(c, a, b, n, l - 1);
      assert s[l - 1 + m] == c[l - 1] && w[l - 1 + m] == b[l - 1];
    }
  }

  lemma MergedValid(d1: seq<Div>, d2: seq<Div>, n: nat)
    requires ValidDivs(d1, n) && ValidDivs(d2, n)
    ensures ValidDivs(d1 + SpreadDivs(d2, n, |d1|), n)
  {
  }

  lemma {:induction false} ArgsPrefix(x: seq<int>, divs: seq<Div>)
    requires ValidDivs(divs, |x|)
    ensures Args(x, divs)[..1 + |x|] == Homog(x)
    decreases |divs|
  {
    if divs != [] {
      var a := Args(x, divs[..|divs| - 1]);
      ArgsPrefix(x, divs[..|divs| - 1]);
      ArgsLast(x, divs);
      assert Args(x, divs)[..1 + |x|] == a[..1 + |x|];
    }
  }

  lemma {:induction false} ArgsMerged(x: seq<int>, d1: seq<Div>, d2: seq<Div>)
    requires ValidDivs(d1, |x|) && ValidDivs(d2, |x|)
    ensures ValidDivs(d1 + SpreadDivs(d2, |x|, |d1|), |x|)
    ensures Args(x, d1 + SpreadDivs(d2, |x|, |d1|)) == Widened(Args(x, d1), Args(x, d2), |x|)
    decreases |d2|
  {
    hide IDot, Args, Spread;
    var n, m := |x|, |d1|;
    MergedValid(d1, d2, n);
    var s := SpreadDivs(d2, n, m);
    if d2 == [] {
      assert d1 + s == d1;
      NoArgs(x);
      assert Widened(Args(x, d1), Args(x, d2), n) == Args(x, d1);
    } else {
      var k := |d2| - 1;
      var p, d := d2[..k], d2[k];
      var s' := SpreadDivs(p, n, m);
      ArgsMerged(x, d1, p);
      ArgsPrefix(x, d1);
      ArgsPrefix(x, p);
      var a, b := Args(x, d1), Args(x, p);
      assert d1 + s == (d1 + s') + [s[k]];
      ArgsExtended(x, d1 + s', s[k]);
      assert d2 == p + [d];
      ArgsExtended(x, p, d);
      IDotSpread(d.coeffs, a, b, n, |b|);
      assert Widened(a, b + [IDot(d.coeffs, b, |b|) / d.denom], n)
          == Widened(a, b, n) + [IDot(d.coeffs, b, |b|) / d.denom];
    }
  }

  lemma NoArgs(x: seq<int>)
    ensures Args(x, []) == Homog(x)
  {
  }

  /** The first summand over the merged divisions. */
  function WidenFirst(e: Aff, divs: seq<Div>): Aff
    requires |e.divs| <= |divs|
  {
    Aff(e.denom, e.v + Zeroes(|divs| - |e.divs|), divs)
  }

  function WidenSecond(e: Aff, n: nat, m: nat, divs: seq<Div>): Aff
    requires 1 + n <= |e.v|
  {
    Aff(e.denom, Spread(e.v, n, m), divs)
  }

  lemma WidenedVals(e1: Aff, e2: Aff, x: seq<int>)
    requires e1.Valid(|x|) && e2.Valid(|x|)
    ensures var divs := e1.divs + SpreadDivs(e2.divs, |x|, |e1.divs|);
      var r1, r2 := WidenFirst(e1, divs), WidenSecond(e2, |x|, |e1.divs|, divs);
      r1.Valid(|x|) && r2.Valid(|x|) && Val(r1, x) == Val(e1, x) && Val(r2, x) == Val(e2, x)
  {
    hide Args, IDot, Spread;
    var n, m := |x|, |e1.divs|;
    var divs := e1.divs + SpreadDivs(e2.divs, n, m);
    var r1, r2 := WidenFirst(e1, divs), WidenSecond(e2, n, m, divs);
    MergedValid(e1.divs, e2.divs, n);
    ArgsMerged(x, e1.divs, e2.divs);
    ArgsPrefix(x, e1.divs);
    ArgsPrefix(x, e2.divs);
    var a, b, w := Args(x, e1.divs), Args(x, e2.divs), Args(x, divs);
    IDotSkip(r1.v, w, |e1.v|, |r1.v|);
    IDotSame(r1.v, w, e1.v, a, |e1.v|);
    IDotSpread(e2.v, a, b, n, |e2.v|);
    SameVal(e1, r1, x);
    SameVal(e2, r2, x);
  }

  /** `isl_aff_add`; a NaN argument is returned. */
  method AddAffs(e1: Aff, e2: Aff, n: nat) returns (r: Aff)
    requires (e1.denom == 0 || e1.Valid(n)) && (e2.denom == 0 || e2.Valid(n))
    ensures r.denom == 0 <==> e1.denom == 0 || e2.denom == 0
    ensures r.denom != 0 ==> r.Valid(n)
    ensures r.denom != 0 ==> forall x: seq<int> | |x| == n :: Val(r, x) == Val(e1, x) + Val(e2, x)
  {
    hide Val, Spread, Args;
    if e1.denom == 0 {
      return e1;
    }
    if e2.denom == 0 {
      return e2;
    }
    var divs := e1.divs + SpreadDivs(e2.divs, n, |e1.divs|);
    var r1, r2 := WidenFirst(e1, divs), WidenSecond(e2, n, |e1.divs|, divs);
    WidenedVals(e1, e2, Zeroes(n));
    r := AddExpanded(r1, r2, n);
    forall x: seq<int> | |x| == n ensures Val(r, x) == Val(e1, x) + Val(e2, x) {
      WidenedVals(e1, e2, x);
    }
  }
}
