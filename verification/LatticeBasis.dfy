/** Bases of integer lattices under the two row operations of the basis
    reduction: adding an integer multiple of a row to the next one, and
    exchanging two neighbouring rows. Both can be undone, so they generate
    unimodular transformations. */
module LatticeBasis {
  import opened LinearAlgebra

  /** v + c * b */
  function AddScaled(v: Row, b: Row, c: int): (r: Row)
    requires |v| == |b|
    ensures |r| == |v| && forall k | 0 <= k < |v| :: r[k] == v[k] + c * b[k]
  {
    seq(|v|, k requires 0 <= k < |v| => v[k] + c * b[k])
  }

  lemma AddScaledTwice(v: Row, b: Row, c: int, d: int)
    requires |v| == |b|
    ensures AddScaled(AddScaled(v, b, c), b, d) == AddScaled(v, b, c + d)
  {
    var r, s := AddScaled(AddScaled(v, b, c), b, d), AddScaled(v, b, c + d);
    forall k | 0 <= k < |v| ensures r[k] == s[k] {
      assert c * b[k] + d * b[k] == (c + d) * b[k];
    }
  }

  lemma AddScaledZero(v: Row, b: Row)
    requires |v| == |b|
    ensures AddScaled(v, b, 0) == v
  {
  }

  /** Row i + 1 gets c times row i added, or rows i and i + 1 change places. */
  datatype Step = AddTo(i: nat, c: int) | Exchange(i: nat)

  predicate Fits(s: Step, n: nat) {
    s.i + 1 < n
  }

  function Apply(s: Step, B: seq<Row>, w: nat): (r: seq<Row>)
    requires Matrix(B, w) && Fits(s, |B|)
    ensures Matrix(r, w) && |r| == |B|
  {
    match s
    case AddTo(i, c) => B[i + 1 := AddScaled(B[i + 1], B[i], c)]
    case Exchange(i) => B[i := B[i + 1]][i + 1 := B[i]]
  }

  function Reverse(s: Step): Step {
    match s
    case AddTo(i, c) => AddTo(i, -c)
    case Exchange(i) => s
  }

  lemma StepUndone(s: Step, B: seq<Row>, w: nat)
    requires Matrix(B, w) && Fits(s, |B|)
    ensures Apply(Reverse(s), Apply(s, B, w), w) == B
  {
    if s.AddTo? {
      AddScaledTwice(B[s.i + 1], B[s.i], s.c, -s.c);
      AddScaledZero(B[s.i + 1], B[s.i]);
    }
  }

  // ---------------------------------------------------------------- runs of steps

  predicate AllFit(steps: seq<Step>, lo: nat, hi: nat) {
    forall k | 0 <= k < |steps| :: lo <= steps[k].i && steps[k].i + 1 < hi
  }

  ghost function Run(steps: seq<Step>, B: seq<Row>, w: nat): (r: seq<Row>)
    requires Matrix(B, w) && AllFit(steps, 0, |B|)
    ensures Matrix(r, w) && |r| == |B|
    decreases |steps|
  {
    if steps == [] then B
    else Apply(steps[|steps| - 1], Run(steps[..|steps| - 1], B, w), w)
  }

  /** The reversed steps, last first. */
  function Undo(steps: seq<Step>): (r: seq<Step>)
    ensures |r| == |steps|
    ensures forall k | 0 <= k < |r| :: r[k].i == steps[|steps| - 1 - k].i
  {
    if steps == [] then [] else [Reverse(steps[|steps| - 1])] + Undo(steps[..|steps| - 1])
  }

  lemma RunExtended(steps: seq<Step>, s: Step, B: seq<Row>, w: nat)
    requires Matrix(B, w) && AllFit(steps, 0, |B|) && Fits(s, |B|)
    ensures AllFit(steps + [s], 0, |B|) && Run(steps + [s], B, w) == Apply(s, Run(steps, B, w), w)
  {
    assert (steps + [s])[..|steps|] == steps;
  }

  lemma {:induction false} RunConcat(s: seq<Step>, t: seq<Step>, B: seq<Row>, w: nat)
    requires Matrix(B, w) && AllFit(s, 0, |B|) && AllFit(t, 0, |B|)
    ensures AllFit(s + t, 0, |B|) && Run(s + t, B, w) == Run(t, Run(s, B, w), w)
    decreases |t|
  {
    if t == [] {
      assert s + t == s;
    } else {
      var t', l := t[..|t| - 1], t[|t| - 1];
      RunConcat(s, t', B, w);
      assert s + t == (s + t') + [l] && t == t' + [l];
      RunExtended(s + t', l, B, w);
      RunExtended(t', l, Run(s, B, w), w);
    }
  }

  /** Every run of steps can be undone. */
  lemma {:induction false} RunUndone(steps: seq<Step>, B: seq<Row>, w: nat)
    requires Matrix(B, w) && AllFit(steps, 0, |B|)
    ensures AllFit(Undo(steps), 0, |B|) && Run(Undo(steps), Run(steps, B, w), w) == B
    decreases |steps|
  {
    if steps != [] {
      var s, l := steps[..|steps| - 1], steps[|steps| - 1];
      RunUndone(s, B, w);
      var B1 := Run(s, B, w);
      var B2 := Apply(l, B1, w);
      assert [Reverse(l)][..0] == [];
      assert Run([], B2, w) == B2;
      RunExtended([], Reverse(l), B2, w);
      assert [] + [Reverse(l)] == [Reverse(l)];
      StepUndone(l, B1, w);
      RunConcat([Reverse(l)], Undo(s), B2, w);
    }
  }

  /** Rows outside the range of the steps stay as they are. */
  lemma {:induction false} RunKeeps(steps: seq<Step>, B: seq<Row>, w: nat, lo: nat, hi: nat, k: nat)
    requires Matrix(B, w) && hi <= |B| && AllFit(steps, lo, hi) && k < |B| && (k < lo || k >= hi)
    ensures Run(steps, B, w)[k] == B[k]
    decreases |steps|
  {
    if steps != [] { RunKeeps(steps[..|steps| - 1], B, w, lo, hi, k); }
  }

  // ---------------------------------------------------------------- the lattice

  ghost function Sum(u: seq<int>, B: seq<Row>, w: nat, k: nat, n: nat): int
    requires Matrix(B, w) && |u| == |B| && k < w && n <= |B|
  {
    if n == 0 then 0 else Sum(u, B, w, k, n - 1) + u[n - 1] * B[n - 1][k]
  }

  /** r is the combination of the rows of B with the integer coefficients u. */
  ghost predicate Generates(u: seq<int>, B: seq<Row>, r: Row, w: nat)
    requires Matrix(B, w)
  {
    |u| == |B| && |r| == w && forall k | 0 <= k < w :: r[k] == Sum(u, B, w, k, |B|)
  }

  ghost predicate InLattice(r: Row, B: seq<Row>, w: nat)
    requires Matrix(B, w)
  {
    exists u :: Generates(u, B, r, w)
  }

  /** The coefficients over B of what u is over the basis after the step. */
  function Pulled(s: Step, u: seq<int>): (v: seq<int>)
    requires Fits(s, |u|)
    ensures |v| == |u|
  {
    match s
    case AddTo(i, c) => u[i := u[i] + c * u[i + 1]]
    case Exchange(i) => u[i := u[i + 1]][i + 1 := u[i]]
  }

  lemma {:induction false} PulledSum(s: Step, u: seq<int>, B: seq<Row>, w: nat, k: nat, n: nat)
    requires Matrix(B, w) && |u| == |B| && Fits(s, |B|) && k < w && n <= |B|
    ensures Sum(u, Apply(s, B, w), w, k, n)
         == Sum(Pulled(s, u), B, w, k, n)
          + if n != s.i + 1 then 0
            else if s.AddTo? then -(s.c * u[s.i + 1] * B[s.i][k])
            else u[s.i] * B[s.i + 1][k] - u[s.i + 1] * B[s.i][k]
  {
    if n > 0 {
      PulledSum(s, u, B, w, k, n - 1);
      if s.AddTo? {
        Distribute(u[s.i], s.c, u[s.i + 1], B[s.i][k], B[s.i + 1][k]);
      }
    }
  }

  lemma Distribute(a: int, c: int, d: int, x: int, y: int)
    ensures (a + c * d) * x == a * x + c * d * x
    ensures d * (y + c * x) == d * y + c * d * x
  {
  }

  lemma StepLattice(s: Step, B: seq<Row>, w: nat, r: Row)
    requires Matrix(B, w) && Fits(s, |B|) && InLattice(r, Apply(s, B, w), w)
    ensures InLattice(r, B, w)
  {
    var u :| Generates(u, Apply(s, B, w), r, w);
    forall k | 0 <= k < w ensures r[k] == Sum(Pulled(s, u), B, w, k, |B|) {
      PulledSum(s, u, B, w, k, |B|);
    }
    assert Generates(Pulled(s, u), B, r, w);
  }

  lemma {:induction false} RunLattice(steps: seq<Step>, B: seq<Row>, w: nat, r: Row)
    requires Matrix(B, w) && AllFit(steps, 0, |B|) && InLattice(r, Run(steps, B, w), w)
    ensures InLattice(r, B, w)
    decreases |steps|
  {
    if steps != [] {
      var s := steps[..|steps| - 1];
      StepLattice(steps[|steps| - 1], Run(s, B, w), w, r);
      RunLattice(s, B, w, r);
    }
  }

  /** A run of steps changes the basis and not the lattice. */
  lemma SameLattice(steps: seq<Step>, B: seq<Row>, w: nat, r: Row)
    requires Matrix(B, w) && AllFit(steps, 0, |B|)
    ensures InLattice(r, Run(steps, B, w), w) <==> InLattice(r, B, w)
  {
    if InLattice(r, Run(steps, B, w), w) { RunLattice(steps, B, w, r); }
    if InLattice(r, B, w) {
      RunUndone(steps, B, w);
      RunLattice(Undo(steps), Run(steps, B, w), w, r);
    }
  }
}
