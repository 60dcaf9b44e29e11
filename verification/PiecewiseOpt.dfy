/** The minimum and the maximum of a list of piecewise quasi-affine expressions,
    `isl_pw_aff_list_opt`. The strict comparison subtracts a whole 1, so the
    result is first described for values of any kind and then for integers. */
module PiecewiseOpt {
  import opened Wrappers
  import opened QuasiAffine
  import opened Piecewise

  // ---------------------------------------------------------------- comparisons

  /** a comes no later than b; strictly means at least a whole 1 below. */
  ghost predicate Before(a: Outcome, b: Outcome, strict: bool) {
    a.Number? && b.Number? && if strict then a.v + 1.0 <= b.v else a.v <= b.v
  }

  /** The constant -1 on a region. */
  function MinusOne(n: nat): Aff {
    Aff(1, [-1] + Zeroes(n), [])
  }

  lemma MinusOneVal(x: seq<int>)
    ensures MinusOne(|x|).Valid(|x|) && Val(MinusOne(|x|), x) == -1.0
  {
    ConstantVal(MinusOne(|x|), x);
  }

  /** `pw_aff_gte_set` without `equal`: where q is below p. */
  method GteSet(p: Pw, q: Pw, strict: bool, n: nat) returns (s: Region)
    requires ValidPw(p, n) && ValidPw(q, n) && Disjoint(p, n) && Disjoint(q, n)
    ensures ValidRegion(s, n)
    ensures forall x: seq<int> | |x| == n :: In(s, x) <==> Before(At(q, x), At(p, x), strict)
  {
    hide In, ValidRegion, Val, Disjoint;
    var s1 := Domain(p, n);
    var s2 := Domain(q, n);
    s1 := Intersect(s1, s2, n);
    var p1 := IntersectDomain(p, s1, n);
    var q1 := IntersectDomain(q, s1, n);
    q1 := UnaryOp(Negative, q1, n);
    p1 := Add(p1, q1, n);
    if strict {
      MinusOneVal(Zeroes(n));
      var one := Piece(s1, MinusOne(n));
      NoPieces(n);
      forall x: seq<int> | |x| == n ensures At([] + [one], x) == PieceAt(one, x) {
        AtExtended([], one, x);
      }
      DisjointExtended([], one, n);
      assert [] + [one] == [one];
      p1 := Add(p1, [one], n);
      forall x: seq<int> | |x| == n && In(s1, x) ensures At([one], x) == Number(-1.0) {
        MinusOneVal(x);
      }
    }
    s := NonNegSet(p1, n);
  }

  // ---------------------------------------------------------------- the optimum of a list

  ghost predicate ValidList(list: seq<Pw>, n: nat) {
    forall i | 0 <= i < |list| :: ValidPw(list[i], n) && Disjoint(list[i], n)
  }

  /** `less`: equality is allowed for the earlier position only. */
  method Less(list: seq<Pw>, pos1: nat, pos2: nat, n: nat) returns (s: Region)
    requires ValidList(list, n) && pos1 < |list| && pos2 < |list|
    ensures ValidRegion(s, n)
    ensures forall x: seq<int> | |x| == n ::
        In(s, x) <==> Before(At(list[pos1], x), At(list[pos2], x), pos1 >= pos2)
  {
    s := GteSet(list[pos2], list[pos1], pos1 >= pos2, n);
  }

  /** The comparison that lets element i stand against element j. */
  ghost predicate Beats(list: seq<Pw>, max: bool, i: nat, j: nat, x: seq<int>)
    requires ValidList(list, |x|) && i < |list| && j < |list|
  {
    if max then Before(At(list[j], x), At(list[i], x), j >= i)
    else Before(At(list[i], x), At(list[j], x), i >= j)
  }

  ghost predicate BeatsFirst(list: seq<Pw>, max: bool, i: nat, m: nat, x: seq<int>)
    requires ValidList(list, |x|) && i < |list| && m <= |list|
  {
    !At(list[i], x).Undefined? && forall j | 0 <= j < m && j != i :: Beats(list, max, i, j, x)
  }

  ghost predicate Winner(list: seq<Pw>, max: bool, i: nat, x: seq<int>)
    requires ValidList(list, |x|) && i < |list|
  {
    BeatsFirst(list, max, i, |list|, x)
  }

  /** o is the value of the winner among the first m elements, if there is one. */
  ghost predicate Picked(list: seq<Pw>, max: bool, m: nat, x: seq<int>, o: Outcome)
    requires ValidList(list, |x|) && m <= |list|
  {
    && (forall i | 0 <= i < m && Winner(list, max, i, x) :: o == At(list[i], x))
    && (!o.Undefined? ==> exists i :: 0 <= i < m && Winner(list, max, i, x))
  }

  lemma BeatsOneWay(list: seq<Pw>, max: bool, i: nat, k: nat, x: seq<int>)
    requires ValidList(list, |x|) && i < |list| && k < |list| && i != k
    ensures !Beats(list, max, i, k, x) || !Beats(list, max, k, i, x)
  {
  }

  lemma WinnerUnique(list: seq<Pw>, max: bool, i: nat, k: nat, x: seq<int>)
    requires ValidList(list, |x|) && i < |list| && k < |list| && i != k
    ensures !Winner(list, max, i, x) || !Winner(list, max, k, x)
  {
    hide ValidPw, Disjoint, At, Beats;
    BeatsOneWay(list, max, i, k, x);
  }

  predicate InvolvesNaN(p: Pw) {
    exists k :: 0 <= k < |p| && p[k].aff.denom == 0
  }

  predicate ListInvolvesNaN(list: seq<Pw>) {
    exists i :: 0 <= i < |list| && InvolvesNaN(list[i])
  }

  ghost predicate AllDefined(list: seq<Pw>, x: seq<int>)
    requires ValidList(list, |x|)
  {
    forall i | 0 <= i < |list| :: !At(list[i], x).Undefined?
  }

  /** `replace_list_by_nan`: NaN on the shared domain. */
  method ReplaceListByNaN(list: seq<Pw>, n: nat) returns (r: Pw)
    requires ValidList(list, n) && |list| > 0
    ensures ValidPw(r, n) && Disjoint(r, n)
    ensures forall x: seq<int> | |x| == n :: At(r, x) == Restricted(NaN, AllDefined(list, x))
  {
    hide In, ValidRegion, ValidPw, Disjoint, At;
    var dom := Domain(list[0], n);
    for i := 1 to |list|
      invariant ValidRegion(dom, n)
      invariant forall x: seq<int> | |x| == n ::
          In(dom, x) <==> forall k | 0 <= k < i :: !At(list[k], x).Undefined?
    {
      var d := Domain(list[i], n);
      dom := Intersect(dom, d, n);
    }
    var c := Piece(dom, Aff(0, [], []));
    NoPieces(n);
    forall x: seq<int> | |x| == n ensures ValidPw([] + [c], n) && At([] + [c], x) == PieceAt(c, x) {
      AtExtended([], c, x);
    }
    DisjointExtended([], c, n);
    assert [] + [c] == [c];
    r := [c];
  }

  /** `isl_pw_aff_list_opt`; an empty list is an error. */
  method ListOpt(list: seq<Pw>, max: bool, n: nat) returns (r: Option<Pw>)
    requires ValidList(list, n)
    ensures r.None? <==> list == []
    ensures r.Some? ==> ValidPw(r.value, n) && Disjoint(r.value, n)
    ensures r.Some? && ListInvolvesNaN(list) ==>
      forall x: seq<int> | |x| == n :: At(r.value, x) == Restricted(NaN, AllDefined(list, x))
    ensures r.Some? && !ListInvolvesNaN(list) ==>
      forall x: seq<int> | |x| == n :: Picked(list, max, |list|, x, At(r.value, x))
  {
    hide In, ValidRegion, ValidPw, Disjoint, At, Beats, InvolvesNaN;
    if |list| < 1 {
      return None;
    }
    if ListInvolvesNaN(list) {
      var q := ReplaceListByNaN(list, n);
      return Some(q);
    }
    var res: Pw := [];
    NoPieces(n);
    for i := 0 to |list|
      invariant ValidPw(res, n) && Disjoint(res, n)
      invariant forall x: seq<int> | |x| == n :: Picked(list, max, i, x, At(res, x))
    {
      var pa := list[i];
      for j := 0 to |list|
        invariant ValidPw(pa, n) && Disjoint(pa, n)
        invariant forall x: seq<int> | |x| == n ::
            At(pa, x) == Restricted(At(list[i], x), BeatsFirst(list, max, i, j, x))
      {
        if j != i {
          var dom;
          if max {
            dom := Less(list, j, i, n);
          } else {
            dom := Less(list, i, j, n);
          }
          pa := IntersectDomain(pa, dom, n);
          forall x: seq<int> | |x| == n
            ensures At(pa, x) == Restricted(At(list[i], x), BeatsFirst(list, max, i, j + 1, x))
          {
            BeatsNext(list, max, i, j, x);
          }
        }
      }
      forall x: seq<int> | |x| == n ensures At(res, x).Undefined? || At(pa, x).Undefined? {
        PickedApart(list, max, i, x, At(res, x));
      }
      ghost var before := res;
      res := AddDisjoint(res, pa, n);
      forall x: seq<int> | |x| == n ensures Picked(list, max, i + 1, x, At(res, x)) {
        PickedNext(list, max, i, x, At(before, x));
      }
    }
    return Some(res);
  }

  lemma BeatsNext(list: seq<Pw>, max: bool, i: nat, j: nat, x: seq<int>)
    requires ValidList(list, |x|) && i < |list| && j < |list| && i != j
    ensures BeatsFirst(list, max, i, j + 1, x)
       <==> BeatsFirst(list, max, i, j, x)
            && if max then Before(At(list[j], x), At(list[i], x), j >= i)
               else Before(At(list[i], x), At(list[j], x), i >= j)
  {
    hide ValidPw, Disjoint, At, Before;
    var beats := Beats(list, max, i, j, x);
    assert BeatsFirst(list, max, i, j + 1, x) ==> beats;
  }

  lemma PickedApart(list: seq<Pw>, max: bool, i: nat, x: seq<int>, o: Outcome)
    requires ValidList(list, |x|) && i < |list| && Picked(list, max, i, x, o)
    ensures o.Undefined? || !Winner(list, max, i, x)
  {
    hide ValidPw, Disjoint, At, Before;
    if !o.Undefined? && Winner(list, max, i, x) {
      var k :| 0 <= k < i && Winner(list, max, k, x);
      WinnerUnique(list, max, i, k, x);
    }
  }

  lemma PickedNext(list: seq<Pw>, max: bool, i: nat, x: seq<int>, o: Outcome)
    requires ValidList(list, |x|) && i < |list| && Picked(list, max, i, x, o)
    ensures Picked(list, max, i + 1, x,
        if o.Undefined? then Restricted(At(list[i], x), Winner(list, max, i, x)) else o)
  {
    hide ValidPw, Disjoint, At, Winner;
    PickedApart(list, max, i, x, o);
    var o' := if o.Undefined? then Restricted(At(list[i], x), Winner(list, max, i, x)) else o;
    forall k | 0 <= k < i + 1 && Winner(list, max, k, x) ensures o' == At(list[k], x) {
      WinnerDefined(list, max, k, x);
    }
    if !o.Undefined? {
      var k :| 0 <= k < i && Winner(list, max, k, x);
      assert 0 <= k < i + 1;
    }
  }

  lemma WinnerDefined(list: seq<Pw>, max: bool, i: nat, x: seq<int>)
    requires ValidList(list, |x|) && i < |list| && Winner(list, max, i, x)
    ensures !At(list[i], x).Undefined?
  {
  }

  // ---------------------------------------------------------------- what the optimum is

  ghost predicate AllNumbers(list: seq<Pw>, x: seq<int>)
    requires ValidList(list, |x|)
  {
    forall i | 0 <= i < |list| :: At(list[i], x).Number?
  }

  ghost predicate IntegerAt(list: seq<Pw>, x: seq<int>)
    requires ValidList(list, |x|)
  {
    forall i | 0 <= i < |list| :: At(list[i], x).Number? ==> IsInteger(At(list[i], x).v)
  }

  ghost predicate IsInteger(v: real) {
    v == (v.Floor as real)
  }

  /** Element i has the least value and is the first with it, or for a maximum
      the greatest value and the last with it. */
  ghost predicate Optimal(list: seq<Pw>, max: bool, i: nat, x: seq<int>)
    requires ValidList(list, |x|) && AllNumbers(list, x) && i < |list|
  {
    forall j | 0 <= j < |list| && j != i :: Prefers(At(list[i], x).v, At(list[j], x).v, max, i, j)
  }

  ghost predicate Prefers(a: real, b: real, max: bool, i: nat, j: nat) {
    if max then b < a || (b == a && j < i) else a < b || (a == b && i < j)
  }

  /** Every list has exactly one optimal element at a point. */
  lemma {:induction false} OptimalExists(list: seq<Pw>, max: bool, x: seq<int>, m: nat) returns (i: nat)
    requires ValidList(list, |x|) && AllNumbers(list, x) && 0 < m <= |list|
    ensures i < m
    ensures forall j | 0 <= j < m && j != i :: Prefers(At(list[i], x).v, At(list[j], x).v, max, i, j)
  {
    hide ValidPw, Disjoint, At;
    i := 0;
    if m > 1 {
      i := OptimalExists(list, max, x, m - 1);
      if !Prefers(At(list[i], x).v, At(list[m - 1], x).v, max, i, m - 1) {
        i := m - 1;
      }
    }
  }

  /** The element that stands against all others is the optimal one. */
  lemma WinnerIsOptimal(list: seq<Pw>, max: bool, i: nat, x: seq<int>)
    requires ValidList(list, |x|) && AllNumbers(list, x) && i < |list| && Winner(list, max, i, x)
    ensures Optimal(list, max, i, x)
  {
    hide ValidPw, Disjoint, At;
    forall j | 0 <= j < |list| && j != i
      ensures Prefers(At(list[i], x).v, At(list[j], x).v, max, i, j)
    {
      assert Beats(list, max, i, j, x);
    }
  }

  /** Between integers the optimal element stands against all others. */
  lemma OptimalIsWinner(list: seq<Pw>, max: bool, i: nat, x: seq<int>)
    requires ValidList(list, |x|) && AllNumbers(list, x) && IntegerAt(list, x)
    requires i < |list| && Optimal(list, max, i, x)
    ensures Winner(list, max, i, x)
  {
    hide ValidPw, Disjoint, At, Prefers, Before;
    forall j | 0 <= j < |list| && j != i ensures Beats(list, max, i, j, x) {
      var a, b := At(list[i], x), At(list[j], x);
      assert Prefers(a.v, b.v, max, i, j);
      PrefersIntegers(a.v, b.v, max, i, j);
    }
  }

  lemma PrefersIntegers(a: real, b: real, max: bool, i: nat, j: nat)
    requires IsInteger(a) && IsInteger(b) && i != j && Prefers(a, b, max, i, j)
    ensures if max then Before(Number(b), Number(a), j >= i) else Before(Number(a), Number(b), i >= j)
  {
    if a < b { assert a.Floor + 1 <= b.Floor; }
    if b < a { assert b.Floor + 1 <= a.Floor; }
  }

  lemma OptimalSome(list: seq<Pw>, max: bool, x: seq<int>) returns (i: nat)
    requires ValidList(list, |x|) && AllNumbers(list, x) && |list| > 0
    ensures i < |list| && Optimal(list, max, i, x)
  {
    i := OptimalExists(list, max, x, |list|);
  }

  lemma OptimalUnique(list: seq<Pw>, max: bool, i: nat, k: nat, x: seq<int>)
    requires ValidList(list, |x|) && AllNumbers(list, x) && i < |list| && k < |list|
    requires Optimal(list, max, i, x) && Optimal(list, max, k, x)
    ensures i == k
  {
    hide ValidPw, Disjoint, At;
    var a, b := At(list[i], x).v, At(list[k], x).v;
    assert i != k ==> Prefers(a, b, max, i, k) && Prefers(b, a, max, k, i);
  }

  lemma {:induction false} AtNumber(p: Pw, x: seq<int>)
    requires ValidPw(p, |x|) && !InvolvesNaN(p)
    ensures !At(p, x).NaN?
    decreases |p|
  {
    if p != [] {
      var k := |p| - 1;
      assert !InvolvesNaN(p[..k]) by {
        forall l | 0 <= l < k ensures p[..k][l].aff.denom != 0 { assert p[..k][l] == p[l]; }
      }
      AtNumber(p[..k], x);
      assert p[k].aff.denom != 0;
    }
  }

  lemma NumbersOnly(list: seq<Pw>, x: seq<int>)
    requires ValidList(list, |x|) && !ListInvolvesNaN(list)
    ensures AllDefined(list, x) <==> AllNumbers(list, x)
  {
    hide ValidPw, Disjoint, At, InvolvesNaN;
    forall i | 0 <= i < |list| ensures !At(list[i], x).NaN? {
      AtNumber(list[i], x);
    }
  }

  lemma WinnerAllDefined(list: seq<Pw>, max: bool, i: nat, x: seq<int>)
    requires ValidList(list, |x|) && i < |list| && Winner(list, max, i, x)
    ensures AllDefined(list, x)
  {
    hide ValidPw, Disjoint, At;
    forall j | 0 <= j < |list| ensures !At(list[j], x).Undefined? {
      assert j != i ==> Beats(list, max, i, j, x);
    }
  }

  /** The value of the result of `ListOpt` on integer values: defined exactly on
      the intersection of the domains, and there the value of the optimal element. */
  lemma IntegerOptimum(list: seq<Pw>, max: bool, x: seq<int>, o: Outcome)
    requires ValidList(list, |x|) && |list| > 0 && Picked(list, max, |list|, x, o)
    requires !ListInvolvesNaN(list) && IntegerAt(list, x)
    ensures !o.Undefined? <==> AllDefined(list, x)
    ensures AllDefined(list, x) ==>
      AllNumbers(list, x) && exists i :: 0 <= i < |list| && Optimal(list, max, i, x) && o == At(list[i], x)
  {
    hide ValidPw, Disjoint, At, Optimal, Winner, InvolvesNaN;
    NumbersOnly(list, x);
    if AllDefined(list, x) {
      var i := OptimalSome(list, max, x);
      OptimalIsWinner(list, max, i, x);
      assert o == At(list[i], x);
    }
    if !o.Undefined? {
      var i :| 0 <= i < |list| && Winner(list, max, i, x);
      WinnerAllDefined(list, max, i, x);
    }
  }

  /** For values of any kind: the result is defined exactly where the optimal
      element also keeps a whole 1 from each element it may not equal. */
  lemma RealOptimum(list: seq<Pw>, max: bool, x: seq<int>, o: Outcome, i: nat)
    requires ValidList(list, |x|) && Picked(list, max, |list|, x, o)
    requires AllNumbers(list, x) && i < |list| && Optimal(list, max, i, x)
    ensures !o.Undefined? <==> KeepsDistance(list, max, i, x)
    ensures !o.Undefined? ==> o == At(list[i], x)
  {
    hide ValidPw, Disjoint, At, Optimal, Winner;
    DistantIsWinner(list, max, i, x);
    if !o.Undefined? {
      var k :| 0 <= k < |list| && Winner(list, max, k, x);
      WinnerIsOptimal(list, max, k, x);
      OptimalUnique(list, max, i, k, x);
    }
  }

  ghost predicate KeepsDistance(list: seq<Pw>, max: bool, i: nat, x: seq<int>)
    requires ValidList(list, |x|) && AllNumbers(list, x) && i < |list|
  {
    if max then forall j | i < j < |list| :: At(list[j], x).v + 1.0 <= At(list[i], x).v
    else forall j | 0 <= j < i :: At(list[i], x).v + 1.0 <= At(list[j], x).v
  }

  lemma DistantIsWinner(list: seq<Pw>, max: bool, i: nat, x: seq<int>)
    requires ValidList(list, |x|) && AllNumbers(list, x) && i < |list| && Optimal(list, max, i, x)
    ensures Winner(list, max, i, x) <==> KeepsDistance(list, max, i, x)
  {
    hide ValidPw, Disjoint, At;
    if KeepsDistance(list, max, i, x) {
      forall j | 0 <= j < |list| && j != i ensures Beats(list, max, i, j, x) {
        assert Prefers(At(list[i], x).v, At(list[j], x).v, max, i, j);
      }
    }
    if Winner(list, max, i, x) {
      forall j | 0 <= j < |list| && j != i
        ensures max && i < j ==> At(list[j], x).v + 1.0 <= At(list[i], x).v
        ensures !max && j < i ==> At(list[i], x).v + 1.0 <= At(list[j], x).v
      {
        assert Beats(list, max, i, j, x);
      }
    }
  }

  /** A rational minimum can be missed: of 1/2 and 0, neither is kept. */
  lemma HalfAndZeroMissed(o: Outcome)
    ensures var list := [[Piece([[]], Aff(2, [1], []))], [Piece([[]], Aff(1, [0], []))]];
      && ValidList(list, 0) && AllNumbers(list, []) && !ListInvolvesNaN(list)
      && (Picked(list, false, 2, [], o) ==> o.Undefined?)
  {
    var half, zero := Aff(2, [1], []), Aff(1, [0], []);
    var list := [[Piece([[]], half)], [Piece([[]], zero)]];
    ConstantAt(half, [], 0.5);
    ConstantAt(zero, [], 0.0);
    assert !Beats(list, false, 0, 1, []) && !Beats(list, false, 1, 0, []);
  }

  lemma ConstantAt(e: Aff, x: seq<int>, v: real)
    requires e.Valid(|x|) && e.IsConstant() && v == (e.v[0] as real) / (e.denom as real)
    ensures ValidPw([Piece([[]], e)], |x|) && Disjoint([Piece([[]], e)], |x|)
    ensures At([Piece([[]], e)], x) == Number(v)
  {
    hide Val;
    ConstantVal(e, x);
    var p := Piece([[]], e);
    assert Meets(p.dom[0], x);
    assert [p][..0] == [];
  }
}
