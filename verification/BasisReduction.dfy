/** The main loop of isl's generalized basis reduction. */
module BasisReduction {
  import opened IntArith
  import opened LinearAlgebra
  import opened Points
  import opened LatticeBasis
  import opened Widths
  import opened LpTableau

  // ---------------------------------------------------------------- the tableau object

  class Lp {
    ghost const region: iset<Vec>
    const w: nat
    const base: nat
    const solver: Solver
    const cutter: Cutter
    var entries: seq<Entry>
    var stack: seq<nat>
    var conOffset: nat
    var solved: nat

    constructor (ghost region: iset<Vec>, w: nat, base: nat, solver: Solver, cutter: Cutter)
      ensures this.region == region && this.w == w && this.base == base
      ensures this.solver == solver && this.cutter == cutter
      ensures entries == [] && stack == [] && conOffset == base
    {
      this.region, this.w, this.base, this.solver, this.cutter := region, w, base, solver, cutter;
      entries, stack, conOffset, solved := [], [], base, 0;
    }

    ghost predicate Answers(v: Row)
      reads this
    {
      Correct(region, base, solver, cutter, w) && WellPosed(region, entries, v, w)
    }

    /** `add_lp_row`, with the position of the row among the rows. */
    method AddRow(v: Row) returns (row: nat)
      modifies this`entries, this`stack
      ensures entries == old(entries) + [Parallel(v)] && stack == old(stack) + [|old(entries)|]
      ensures row == |old(stack)|
    {
      row := |stack|;
      stack := stack + [|entries|];
      entries := entries + [Parallel(v)];
    }

    /** `del_lp_row`: back to the last snapshot. */
    method DelRow()
      requires |stack| > 0 && stack[|stack| - 1] <= |entries|
      modifies this`entries, this`stack
      ensures entries == old(entries[..stack[|stack| - 1]]) && stack == old(stack[..|stack| - 1])
    {
      entries := entries[..stack[|stack| - 1]];
      stack := stack[..|stack| - 1];
    }

    /** `solve_lp` */
    method Solve(v: Row) returns (a: Answer)
      requires Answers(v)
      modifies this`solved
      ensures IsAnswer(region, base, entries, v, a, w)
    {
      a := solver(solved, entries, v);
      solved := solved + 1;
    }

    /** `cut_lp_to_hyperplane` */
    method CutTo(v: Row) returns (empty: bool)
      requires Answers(v)
      modifies this`entries, this`conOffset, this`solved
      ensures conOffset == old(conOffset) + 2
      ensures exists p ::
        IsPlummet(region, old(entries), v, p) && entries == old(entries) + [Plane(v, p.value)] && empty == p.empty
    {
      var p := cutter(solved, entries, v);
      assert IsPlummet(region, entries, v, p);
      solved := solved + 1;
      entries := entries + [Plane(v, p.value)];
      conOffset := conOffset + 2;
      empty := p.empty;
    }
  }

  // ---------------------------------------------------------------- the layout of the tableau

  /** The tableau holds rows zero..i of the basis, in order. Its last rows, from m
      on, each have their snapshot, and every plane lies before them. */
  ghost predicate Layout(t: seq<Entry>, stack: seq<nat>, conOffset: nat, base: nat,
                         B: seq<Row>, zero: nat, m: nat, i: nat)
  {
    && zero <= m <= i <= |B| && i - m <= |t| && |stack| == i - zero
    && t[|t| - (i - m)..] == Parallels(B[m..i])
    && RowsOf(t[..|t| - (i - m)]) == B[zero..m]
    && conOffset == base + 2 * |PlaneRows(t)|
    && forall j | m - zero <= j < |stack| :: stack[j] == |t| - |stack| + j
  }

  lemma LayoutRows(t: seq<Entry>, stack: seq<nat>, conOffset: nat, base: nat,
                   B: seq<Row>, zero: nat, m: nat, i: nat)
    requires Layout(t, stack, conOffset, base, B, zero, m, i)
    ensures RowsOf(t) == B[zero..i]
    ensures var h := t[..|t| - (i - m)];
      t == h + Parallels(B[m..i]) && RowsOf(h) == B[zero..m] && base + Size(h) == conOffset + (m - zero)
  {
    var h := t[..|t| - (i - m)];
    assert t == h + t[|h|..];
    ContentsTail(h, B[m..i]);
    assert B[zero..m] + B[m..i] == B[zero..i];
  }

  lemma LayoutPush(t: seq<Entry>, stack: seq<nat>, conOffset: nat, base: nat,
                   B: seq<Row>, zero: nat, m: nat, i: nat)
    requires Layout(t, stack, conOffset, base, B, zero, m, i) && i < |B|
    ensures Layout(t + [Parallel(B[i])], stack + [|t|], conOffset, base, B, zero, m, i + 1)
  {
    hide RowsOf, PlaneRows;
    var u, h := t + [Parallel(B[i])], |t| - (i - m);
    assert u[..h] == t[..h] && u[h..] == t[h..] + [Parallel(B[i])];
    assert B[m..i + 1] == B[m..i] + [B[i]];
    ContentsExtended(t, Parallel(B[i]));
  }

  /** Without rows behind it the head takes in the next row. */
  lemma LayoutPushHead(t: seq<Entry>, stack: seq<nat>, conOffset: nat, base: nat,
                       B: seq<Row>, zero: nat, i: nat)
    requires Layout(t, stack, conOffset, base, B, zero, i, i) && i < |B|
    ensures Layout(t + [Parallel(B[i])], stack + [|t|], conOffset, base, B, zero, i + 1, i + 1)
  {
    hide RowsOf, PlaneRows;
    var u := t + [Parallel(B[i])];
    assert t[..|t|] == t && u[..|u|] == u && u[|u|..] == [] && B[i + 1..i + 1] == [];
    assert B[zero..i + 1] == B[zero..i] + [B[i]];
    ContentsExtended(t, Parallel(B[i]));
  }

  lemma LayoutPop(t: seq<Entry>, stack: seq<nat>, conOffset: nat, base: nat,
                  B: seq<Row>, zero: nat, m: nat, i: nat)
    requires Layout(t, stack, conOffset, base, B, zero, m, i) && m < i
    ensures |stack| > 0 && stack[|stack| - 1] == |t| - 1 && t[|t| - 1] == Parallel(B[i - 1])
    ensures Layout(t[..|t| - 1], stack[..|stack| - 1], conOffset, base, B, zero, m, i - 1)
  {
    hide RowsOf, PlaneRows;
    var u, h := t[..|t| - 1], |t| - (i - m);
    assert stack[i - 1 - zero] == |t| - 1;
    assert t[h..][i - 1 - m] == t[|t| - 1];
    assert t == u + [t[|t| - 1]];
    ContentsExtended(u, t[|t| - 1]);
    assert u[..h] == t[..h] && u[h..] == t[h..][..i - 1 - m];
    assert B[m..i - 1] == B[m..i][..i - 1 - m];
  }

  lemma LayoutCut(t: seq<Entry>, stack: seq<nat>, conOffset: nat, base: nat,
                  B: seq<Row>, zero: nat, i: nat, v: Row, c: int)
    requires Layout(t, stack, conOffset, base, B, zero, i, i)
    ensures Layout(t + [Plane(v, c)], stack, conOffset + 2, base, B, zero, i, i)
  {
    hide RowsOf, PlaneRows;
    var u := t + [Plane(v, c)];
    assert t[..|t|] == t && u[..|u|] == u && u[|u|..] == [];
    ContentsExtended(t, Plane(v, c));
  }

  /** Only rows zero..i of the basis are in the tableau. */
  lemma LayoutBasis(t: seq<Entry>, stack: seq<nat>, conOffset: nat, base: nat,
                    B: seq<Row>, B': seq<Row>, zero: nat, m: nat, i: nat)
    requires Layout(t, stack, conOffset, base, B, zero, m, i)
    requires i <= |B'| && B'[..i] == B[..i]
    ensures Layout(t, stack, conOffset, base, B', zero, m, i)
  {
    hide RowsOf, PlaneRows;
    assert B'[m..i] == B'[..i][m..] && B[m..i] == B[..i][m..];
    assert B'[zero..m] == B'[..i][zero..m] && B[zero..m] == B[..i][zero..m];
  }

  // ---------------------------------------------------------------- the state of the loop

  datatype State = State(basis: seq<Row>, nZero: nat, i: nat, f: seq<real>,
                         useSaved: bool, savedWidth: real, savedFixed: bool,
                         buffers: seq<seq<real>>, which: nat)
  {
    ghost predicate Valid(zero: nat, nb: nat, w: nat) {
      && Matrix(basis, w) && |basis| == w && zero <= nZero <= nb && zero <= i < nb <= w
      && |f| == nb && |buffers| == 2 && |buffers[0]| == nb && |buffers[1]| == nb && which < 2
    }

    /** The first row of the basis that still counts as a row of its own. */
    ghost function Tail(): nat {
      if nZero <= i then nZero else i
    }
  }

  ghost predicate Zeroed(S: iset<Vec>, B: seq<Row>, f: seq<real>, zero: nat, nZero: nat, w: nat) {
    nZero <= |B| && nZero <= |f|
    && forall k | zero <= k < nZero :: Null(S, B[k], w) && f[k] == 0.0
  }

  /** f holds the widths of the rows lo..i, each along the rows before it. */
  ghost predicate Measured(S: iset<Vec>, B: seq<Row>, f: seq<real>, lo: nat, i: nat, w: nat) {
    i < |B| && i < |f|
    && forall k | lo <= k <= i :: IsWidth(S, B[lo..k], B[k], f[k], w)
  }

  /** Lovasz and Scarf's reduced basis: each row is the shortest among its sums with
      multiples of the row before, and not much shorter than that row. */
  ghost predicate Reduced(S: iset<Vec>, B: seq<Row>, lo: nat, i: nat, w: nat) {
    i < |B| && forall k | lo <= k < i :: Accepted(S, B[lo..k], B[k], B[k + 1], w)
  }

  /** The width, flag and multipliers kept from the last exchange belong to row
      i + 1; the flag only if it was found for the row as it is. */
  ghost predicate SavedFor(S: iset<Vec>, s: State, exact: bool, w: nat) {
    && s.nZero <= s.i && s.i + 1 < |s.basis| && |s.buffers| == 2 && s.which < 2
    && s.i + 1 <= |s.buffers[s.which]|
    && Solved(S, s.basis[s.nZero..s.i + 1], s.basis[s.i + 1], s.savedWidth,
              s.buffers[s.which][s.nZero..s.i + 1], w)
    && KeptFlag(S, s.basis[s.nZero..s.i + 1], s.basis[s.i + 1], s.savedWidth, s.savedFixed, w)
    && (exact ==> Flagged(S, s.basis[s.nZero..s.i + 1], s.basis[s.i + 1], s.savedWidth, s.savedFixed, w))
  }

  ghost predicate Semantic(S: iset<Vec>, s: State, exact: bool, zero: nat, w: nat) {
    && s.nZero <= s.i + 1 && NonEmpty(S)
    && Zeroed(S, s.basis, s.f, zero, s.nZero, w)
    && Measured(S, s.basis, s.f, s.nZero, s.i, w)
    && Reduced(S, s.basis, s.nZero, s.i, w)
    && (s.useSaved ==> SavedFor(S, s, exact, w))
  }

  /** The first row that counts, if it lies among the rows up to the bound, has at
      least width 1, and it was not flagged, or is still the row at the start. */
  ghost predicate Wide(S: iset<Vec>, s: State, bound: nat, zero: nat, first: Row, w: nat) {
    s.nZero <= bound ==>
      && s.nZero < |s.basis| && s.nZero < |s.f| && s.f[s.nZero] >= 1.0
      && (KeptFlag(S, [], s.basis[s.nZero], s.f[s.nZero], false, w) || (s.nZero == zero && s.basis[zero] == first))
  }

  ghost predicate AllBounded(region: iset<Vec>, B: seq<Row>, nb: nat, w: nat) {
    nb <= |B| && forall k | 0 <= k < nb :: BoundedRow(region, B[k], w)
  }

  ghost predicate LaidOut(lp: Lp, s: State, zero: nat)
    reads lp
  {
    Layout(lp.entries, lp.stack, lp.conOffset, lp.base, s.basis, zero, s.Tail(), s.i)
  }

  ghost predicate Ready(lp: Lp, s: State, zero: nat, nb: nat)
    reads lp
  {
    && s.Valid(zero, nb, lp.w) && LaidOut(lp, s, zero) && AllBounded(lp.region, s.basis, nb, lp.w)
    && Correct(lp.region, lp.base, lp.solver, lp.cutter, lp.w) && InSpace(lp.region, lp.w)
  }

  // ---------------------------------------------------------------- the width of the next row

  lemma NullRows(S: iset<Vec>, B: seq<Row>, f: seq<real>, zero: nat, m: nat, nZero: nat, w: nat)
    requires Zeroed(S, B, f, zero, nZero, w) && zero <= m <= nZero
    ensures AllNull(S, B[zero..m], w)
  {
    hide Bounded;
    forall k | 0 <= k < |B[zero..m]| ensures Null(S, B[zero..m][k], w) { assert B[zero..m][k] == B[zero + k]; }
  }

  lemma MatrixSlice(B: seq<Row>, lo: nat, hi: nat, w: nat)
    requires Matrix(B, w) && lo <= hi <= |B|
    ensures Matrix(B[lo..hi], w)
  {
  }

  /** An answer on the tableau of rows zero..i, read along the rows from m on. */
  lemma AnswerRead(region: iset<Vec>, base: nat, t: seq<Entry>, stack: seq<nat>, conOffset: nat,
                   B: seq<Row>, zero: nat, m: nat, i: nat, v: Row, a: Answer, w: nat)
    requires Layout(t, stack, conOffset, base, B, zero, m, i) && Matrix(B, w)
    requires IsAnswer(region, base, t, v, a, w) && AllNull(Within(region, t), B[zero..m], w)
    ensures Solved(Within(region, t), B[m..i], v, a.width, DualFrom(a.dual, conOffset + (m - zero), i - m), w)
    ensures Flagged(Within(region, t), B[m..i], v, a.width, a.fixed, w)
  {
    hide Layout, IsAnswer, AllNull, Within, Size, Solved, OneValue, Flagged, KeptFlag, RowsOf, Parallels;
    LayoutRows(t, stack, conOffset, base, B, zero, m, i);
    LayoutBounds(t, stack, conOffset, base, B, zero, m, i);
    MatrixSlice(B, m, i, w);
    AnswerSolves(region, base, t[..|t| - (i - m)], B[m..i], v, a, w);
    assert B[zero..m] + B[m..i] == B[zero..i];
    AnswerFlagged(region, base, t, v, a, w);
    FlaggedWithNull(Within(region, t), B[zero..m], B[m..i], v, a.width, a.fixed, w);
  }

  lemma LayoutBounds(t: seq<Entry>, stack: seq<nat>, conOffset: nat, base: nat,
                     B: seq<Row>, zero: nat, m: nat, i: nat)
    requires Layout(t, stack, conOffset, base, B, zero, m, i)
    ensures zero <= m <= i <= |B| && i - m <= |t| && |stack| == i - zero
  {
  }

  lemma AnswerFlagged(region: iset<Vec>, base: nat, t: seq<Entry>, v: Row, a: Answer, w: nat)
    requires IsAnswer(region, base, t, v, a, w)
    ensures Flagged(Within(region, t), RowsOf(t), v, a.width, a.fixed, w)
  {
  }

  /** `save_alpha` for the rows before i, the dual of row 0 being at position first. */
  function SaveAlpha(saved: seq<real>, dual: int -> real, first: int, i: nat): (r: seq<real>)
    requires i <= |saved|
    ensures |r| == |saved|
  {
    seq(|saved|, k requires 0 <= k < |saved| => if k < i then dual(first + k) else saved[k])
  }

  lemma SavedDuals(saved: seq<real>, dual: int -> real, first: int, i: nat, lo: nat)
    requires lo <= i <= |saved|
    ensures SaveAlpha(saved, dual, first, i)[lo..i] == DualFrom(dual, first + lo, i - lo)
  {
  }

  lemma Posed(lp: Lp, s: State, v: Row, zero: nat, nb: nat, m: nat, i: nat)
    requires Layout(lp.entries, lp.stack, lp.conOffset, lp.base, s.basis, zero, m, i)
    requires Matrix(s.basis, lp.w) && Correct(lp.region, lp.base, lp.solver, lp.cutter, lp.w)
    requires NonEmpty(Within(lp.region, lp.entries)) && BoundedRow(lp.region, v, lp.w)
    ensures lp.Answers(v)
  {
    hide Layout, Correct, BoundedRow, Within, NonEmpty;
    LayoutRows(lp.entries, lp.stack, lp.conOffset, lp.base, s.basis, zero, m, i);
    LayoutBounds(lp.entries, lp.stack, lp.conOffset, lp.base, s.basis, zero, m, i);
    MatrixSlice(s.basis, zero, i, lp.w);
  }

  /** What is known of the width of row i + 1 before it is combined. Behind a null
      row i it is a width over all pairs; otherwise it is a width along row i too,
      and alpha is the multiplier of row i. */
  ghost predicate NextKnown(S: iset<Vec>, s: State, exact: bool, width: real, fixed: bool,
                            alpha: real, saved: seq<real>, w: nat)
    requires s.i + 1 < |s.basis|
  {
    var v := s.basis[s.i + 1];
    if s.i + 1 == s.nZero then
      alpha == 0.0 && IsWidth(S, [], v, width, w) && Flagged(S, [], v, width, fixed, w)
    else
      && s.nZero <= s.i <= |saved|
      && Solved(S, s.basis[s.nZero..s.i + 1], v, width, saved[s.nZero..s.i] + [alpha], w)
      && KeptFlag(S, s.basis[s.nZero..s.i + 1], v, width, fixed, w)
      && (exact ==> Flagged(S, s.basis[s.nZero..s.i + 1], v, width, fixed, w))
  }

  /** The first part of a round. */
  method NextWidth(lp: Lp, s: State, ghost exact: bool, ghost zero: nat, ghost nb: nat)
    returns (row: int, width: real, fixed: bool, alpha: real, saved: seq<real>)
    requires Ready(lp, s, zero, nb) && s.i + 1 < nb
    requires Semantic(Within(lp.region, lp.entries), s, exact, zero, lp.w)
    modifies lp`entries, lp`stack, lp`solved
    ensures lp.entries == old(lp.entries) && lp.stack == old(lp.stack)
    ensures |saved| == nb && (s.nZero <= s.i ==> row == s.i - zero)
    ensures NextKnown(Within(lp.region, lp.entries), s, s.useSaved ==> exact, width, fixed, alpha, saved, lp.w)
  {
    hide Layout, Correct, Within, NonEmpty, Zeroed, Measured, Reduced, Solved, OneValue, Flagged, KeptFlag,
         BoundedRow, IsAnswer, DualFrom, SaveAlpha, InSpace, Parallels, Reaches, Bounded;
    saved := s.buffers[s.which];
    ghost var S := Within(lp.region, lp.entries);
    var v := s.basis[s.i + 1];
    LayoutBounds(lp.entries, lp.stack, lp.conOffset, lp.base, s.basis, zero, s.Tail(), s.i);
    if s.i + 1 == s.nZero {
      Posed(lp, s, v, zero, nb, s.i, s.i);
      var a := lp.Solve(v);
      NullRows(S, s.basis, s.f, zero, s.i, s.nZero, lp.w);
      AnswerRead(lp.region, lp.base, lp.entries, lp.stack, lp.conOffset, s.basis, zero, s.i, s.i, v, a, lp.w);
      assert s.basis[s.i..s.i] == [];
      SolvedWidth(S, [], v, a.width, DualFrom(a.dual, lp.conOffset + (s.i - zero), 0), lp.w);
      row, width, fixed, alpha := 0, a.width, a.fixed, 0.0;
    } else if s.useSaved {
      row, width, fixed, alpha := |lp.stack|, s.savedWidth, s.savedFixed, saved[s.i];
      assert saved[s.nZero..s.i + 1] == saved[s.nZero..s.i] + [alpha];
    } else {
      row, width, fixed, alpha, saved := WidthBehindRow(lp, s, zero, nb);
      RowLengths(s.basis, s.i, lp.w);
      FlaggedKept(S, s.basis[s.nZero..s.i + 1], v, width, fixed, lp.w);
    }
  }

  /** The width of row i + 1 along row i, which is in the tableau only for this. */
  method WidthBehindRow(lp: Lp, s: State, ghost zero: nat, ghost nb: nat)
    returns (row: int, width: real, fixed: bool, alpha: real, saved: seq<real>)
    requires Ready(lp, s, zero, nb) && s.i + 1 < nb && s.nZero <= s.i
    requires NonEmpty(Within(lp.region, lp.entries))
    requires Zeroed(Within(lp.region, lp.entries), s.basis, s.f, zero, s.nZero, lp.w)
    modifies lp`entries, lp`stack, lp`solved
    ensures lp.entries == old(lp.entries) && lp.stack == old(lp.stack)
    ensures |saved| == nb && row == s.i - zero
    ensures Solved(Within(lp.region, lp.entries), s.basis[s.nZero..s.i + 1], s.basis[s.i + 1], width,
                   saved[s.nZero..s.i] + [alpha], lp.w)
    ensures Flagged(Within(lp.region, lp.entries), s.basis[s.nZero..s.i + 1], s.basis[s.i + 1], width, fixed, lp.w)
  {
    hide Layout, Correct, Within, NonEmpty, Zeroed, Solved, OneValue, Flagged, KeptFlag, BoundedRow, IsAnswer, DualFrom,
         SaveAlpha, InSpace, Parallels;
    ghost var t0, st0 := lp.entries, lp.stack;
    ghost var S := Within(lp.region, t0);
    saved := s.buffers[s.which];
    var v := s.basis[s.i + 1];
    LayoutBounds(t0, st0, lp.conOffset, lp.base, s.basis, zero, s.nZero, s.i);
    LayoutPush(t0, st0, lp.conOffset, lp.base, s.basis, zero, s.nZero, s.i);
    WithinPush(lp.region, t0, s.basis[s.i]);
    row := lp.AddRow(s.basis[s.i]);
    Posed(lp, s, v, zero, nb, s.nZero, s.i + 1);
    var a := lp.Solve(v);
    NullRows(S, s.basis, s.f, zero, s.nZero, s.nZero, lp.w);
    AnswerRead(lp.region, lp.base, lp.entries, lp.stack, lp.conOffset, s.basis, zero, s.nZero, s.i + 1, v, a, lp.w);
    width, fixed := a.width, a.fixed;
    alpha := a.dual(lp.conOffset + row);
    if s.i > 0 {
      saved := SaveAlpha(saved, a.dual, lp.conOffset + (row - s.i), s.i);
    }
    SavedWithLast(s.buffers[s.which], saved, a.dual, lp.conOffset + (row - s.i), s.i, s.nZero);
    lp.DelRow();
    assert lp.entries == t0 && lp.stack == st0;
  }

  lemma SavedWithLast(old_: seq<real>, saved: seq<real>, dual: int -> real, first: int, i: nat, lo: nat)
    requires lo <= i <= |old_|
    requires saved == if i > 0 then SaveAlpha(old_, dual, first, i) else old_
    ensures |saved| == |old_|
    ensures saved[lo..i] + [dual(first + i)] == DualFrom(dual, first + lo, i + 1 - lo)
  {
  }

  lemma SolvedWidth(S: iset<Vec>, T: seq<Row>, v: Row, F: real, a: seq<real>, w: nat)
    requires Solved(S, T, v, F, a, w)
    ensures IsWidth(S, T, v, F, w)
  {
  }

  // ---------------------------------------------------------------- combining row i + 1 with row i

  /** What is known once c times row i is added to row i + 1. */
  ghost predicate CombinedKnown(S: iset<Vec>, s: State, t: State, c: int, width: real,
                                fNew: real, fixed: bool, exact: bool, w: nat)
    requires s.i + 1 < |s.basis| && |s.basis[s.i]| == |s.basis[s.i + 1]| && t.which < |t.buffers|
  {
    var b, u := s.basis[s.i], AddScaled(s.basis[s.i + 1], s.basis[s.i], c);
    if s.i + 1 == s.nZero then
      c == 0 && fNew == width && IsWidth(S, [], u, fNew, w) && Flagged(S, [], u, fNew, fixed, w)
    else
      && s.nZero <= s.i <= |t.buffers[t.which]|
      && Solved(S, s.basis[s.nZero..s.i], u, fNew, t.buffers[t.which][s.nZero..s.i], w)
      && Minimal(S, s.basis[s.nZero..s.i], u, b, fNew, w)
      && IsWidth(S, s.basis[s.nZero..s.i + 1], u, width, w)
      && KeptFlag(S, s.basis[s.nZero..s.i], u, fNew, fixed, w)
      && (exact ==> Flagged(S, s.basis[s.nZero..s.i], u, fNew, fixed, w))
  }

  /** The linear program for row i + 1 plus c times row i. */
  method MeasureCombined(lp: Lp, s: State, c: int, ghost zero: nat, ghost nb: nat) returns (a: Answer)
    requires Ready(lp, s, zero, nb) && s.i + 1 < nb && s.nZero <= s.i
    requires NonEmpty(Within(lp.region, lp.entries))
    requires Zeroed(Within(lp.region, lp.entries), s.basis, s.f, zero, s.nZero, lp.w)
    modifies lp`solved
    ensures var S, u := Within(lp.region, lp.entries), AddScaled(s.basis[s.i + 1], s.basis[s.i], c);
      && Solved(S, s.basis[s.nZero..s.i], u, a.width, DualFrom(a.dual, lp.conOffset + (s.nZero - zero), s.i - s.nZero), lp.w)
      && Flagged(S, s.basis[s.nZero..s.i], u, a.width, a.fixed, lp.w)
  {
    hide Layout, Correct, Within, NonEmpty, Zeroed, Solved, OneValue, Flagged, KeptFlag, BoundedRow, IsAnswer, DualFrom;
    ghost var S := Within(lp.region, lp.entries);
    var v := AddScaled(s.basis[s.i + 1], s.basis[s.i], c);
    BoundedCombined(lp.region, s.basis[s.i + 1], s.basis[s.i], c, lp.w);
    Posed(lp, s, v, zero, nb, s.nZero, s.i);
    a := lp.Solve(v);
    NullRows(S, s.basis, s.f, zero, s.nZero, s.nZero, lp.w);
    AnswerRead(lp.region, lp.base, lp.entries, lp.stack, lp.conOffset, s.basis, zero, s.nZero, s.i, v, a, lp.w);
  }

  /** The second part of a round: the whole number next to alpha. */
  method Combine(lp: Lp, s: State, row: int, width: real, fixed: bool, alpha: real, saved: seq<real>,
                 ghost exact: bool, ghost zero: nat, ghost nb: nat)
    returns (t: State, fNew: real, fixed': bool, ghost c: int, ghost exact': bool)
    requires Ready(lp, s, zero, nb) && s.i + 1 < nb && |saved| == nb
    requires s.nZero <= s.i ==> row == s.i - zero
    requires NonEmpty(Within(lp.region, lp.entries))
    requires Zeroed(Within(lp.region, lp.entries), s.basis, s.f, zero, s.nZero, lp.w)
    requires NextKnown(Within(lp.region, lp.entries), s, exact, width, fixed, alpha, saved, lp.w)
    modifies lp`solved
    ensures t == s.(basis := s.basis[s.i + 1 := AddScaled(s.basis[s.i + 1], s.basis[s.i], c)],
                    f := s.f[s.i + 1 := width], buffers := t.buffers, which := t.which)
    ensures |t.buffers| == 2 && |t.buffers[0]| == nb && |t.buffers[1]| == nb && t.which < 2
    ensures CombinedKnown(Within(lp.region, lp.entries), s, t, c, width, fNew, fixed', exact', lp.w)
    ensures alpha == (alpha.Floor as real) ==> c == alpha.Floor && fNew == width && fixed' == fixed
    ensures c == alpha.Floor || c == Ceiling(alpha)
    ensures alpha != (alpha.Floor as real) && c == alpha.Floor ==>
      !IsWidth(Within(lp.region, lp.entries), s.basis[s.nZero..s.i], AddScaled(s.basis[s.i + 1], s.basis[s.i], Ceiling(alpha)),
               fNew, lp.w)
    ensures exact' <==> alpha != (alpha.Floor as real) || (exact && c == 0)
  {
    hide Layout, Correct, Within, NonEmpty, Zeroed, Solved, OneValue, Flagged, KeptFlag, Minimal, BoundedRow, IsAnswer,
         DualFrom, SaveAlpha, InSpace, AllBounded, Reaches, Bounded;
    var v, b := s.basis[s.i + 1], s.basis[s.i];
    var buffers, which := s.buffers[s.which := saved], s.which;
    var mu0, mu1 := alpha.Floor, Ceiling(alpha);
    var tmp := mu0;
    fNew, fixed', exact' := width, fixed, exact && mu0 == 0;
    ghost var S := Within(lp.region, lp.entries);
    ghost var T := s.basis[s.nZero..if s.nZero <= s.i then s.i else s.nZero];
    if mu0 == mu1 {
      WholeKnown(S, s, exact, width, fixed, alpha, saved, mu0, lp.w);
    } else {
      var a0 := MeasureCombined(lp, s, mu0, zero, nb);
      var a1 := MeasureCombined(lp, s, mu1, zero, nb);
      if s.i > 0 {
        buffers := [SaveAlpha(buffers[0], a0.dual, lp.conOffset + (row - s.i), s.i),
                    SaveAlpha(buffers[1], a1.dual, lp.conOffset + (row - s.i), s.i)];
      }
      LowerBetter(S, s.basis[s.nZero..s.i], AddScaled(v, b, mu1), a0.width, a1.width,
                  DualFrom(a1.dual, lp.conOffset + (s.nZero - zero), s.i - s.nZero), lp.w);
      var a, j := a1, 1;
      if a0.width < a1.width {
        a, j := a0, 0;
      }
      SavedAnswer(s.buffers[s.which := saved], buffers, j, a.dual, lp.conOffset + (row - s.i), s.i, s.nZero);
      tmp := if j == 0 then mu0 else mu1;
      fNew, fixed', which, exact' := a.width, a.fixed, j, true;
      FractionKnown(S, s, exact, width, fixed, alpha, saved, mu0, a0, mu1, a1,
                    DualFrom(a0.dual, lp.conOffset + (s.nZero - zero), s.i - s.nZero),
                    DualFrom(a1.dual, lp.conOffset + (s.nZero - zero), s.i - s.nZero), tmp, fNew, lp.w);
      FlaggedKept(S, s.basis[s.nZero..s.i], AddScaled(v, b, tmp), fNew, fixed', lp.w);
    }
    c := tmp;
    t := s.(basis := s.basis[s.i + 1 := AddScaled(v, b, tmp)], f := s.f[s.i + 1 := width],
            buffers := buffers, which := which);
  }

  lemma LowerBetter(S: iset<Vec>, T: seq<Row>, v: Row, F: real, G: real, d: seq<real>, w: nat)
    requires Solved(S, T, v, G, d, w)
    ensures F < G ==> !IsWidth(S, T, v, F, w)
  {
    if IsWidth(S, T, v, F, w) { WidthUnique(S, T, v, F, G, w); }
  }

  lemma SavedAnswer(old_: seq<seq<real>>, buffers: seq<seq<real>>, j: nat, dual: int -> real,
                    first: int, i: nat, lo: nat)
    requires |buffers| == 2 && |old_| == 2 && j < 2 && lo <= i <= |old_[j]|
    requires if i > 0 then buffers[j] == SaveAlpha(old_[j], dual, first, i) else buffers == old_
    ensures |buffers[j]| == |old_[j]| && buffers[j][lo..i] == DualFrom(dual, first + lo, i - lo)
  {
    if i > 0 { SavedDuals(old_[j], dual, first, i, lo); }
  }

  lemma LastSlice(B: seq<Row>, lo: nat, i: nat)
    requires lo <= i < |B|
    ensures B[lo..i + 1] == B[lo..i] + [B[i]]
  {
  }

  /** A whole alpha: the answer itself is the width of the combined row. */
  lemma WholeKnown(S: iset<Vec>, s: State, exact: bool, width: real, fixed: bool, alpha: real,
                   saved: seq<real>, mu: int, w: nat)
    requires s.i + 1 < |s.basis| && |s.basis[s.i]| == |s.basis[s.i + 1]| == w && alpha == mu as real
    requires s.which < |s.buffers|
    requires NextKnown(S, s, exact, width, fixed, alpha, saved, w)
    ensures CombinedKnown(S, s, s.(buffers := s.buffers[s.which := saved]), mu, width, width, fixed, exact && mu == 0, w)
  {
    hide IsWidth, Certified, OneValue, Flagged, KeptFlag, Minimal;
    var v, b := s.basis[s.i + 1], s.basis[s.i];
    AddScaledZero(v, b);
    if s.i + 1 != s.nZero {
      var T := s.basis[s.nZero..s.i];
      LastSlice(s.basis, s.nZero, s.i);
      assert saved[s.nZero..s.i] + [alpha] == saved[s.nZero..s.i] + [mu as real];
      WholeMultiplier(S, T, b, v, width, saved[s.nZero..s.i], mu, w);
      WidthAlong(S, T, b, v, width, mu, w);
      KeptCombined(S, T, b, v, mu, width, fixed, w);
      if exact && mu == 0 { FlaggedDropped(S, T, b, v, width, fixed, w); }
    }
  }

  /** A fractional alpha: the better of its two neighbours is the best multiple. */
  lemma FractionKnown(S: iset<Vec>, s: State, exact: bool, width: real, fixed: bool, alpha: real,
                      saved: seq<real>, mu0: int, a0: Answer, mu1: int, a1: Answer,
                      d0: seq<real>, d1: seq<real>, c: int, G: real, w: nat)
    requires s.i + 1 < |s.basis| && |s.basis[s.i]| == |s.basis[s.i + 1]| == w && s.nZero <= s.i
    requires mu0 == alpha.Floor && mu1 == Ceiling(alpha) && mu0 != mu1
    requires NextKnown(S, s, exact, width, fixed, alpha, saved, w)
    requires Solved(S, s.basis[s.nZero..s.i], AddScaled(s.basis[s.i + 1], s.basis[s.i], mu0), a0.width, d0, w)
    requires Solved(S, s.basis[s.nZero..s.i], AddScaled(s.basis[s.i + 1], s.basis[s.i], mu1), a1.width, d1, w)
    requires G <= a0.width && G <= a1.width
    ensures Minimal(S, s.basis[s.nZero..s.i], AddScaled(s.basis[s.i + 1], s.basis[s.i], c), s.basis[s.i], G, w)
    ensures IsWidth(S, s.basis[s.nZero..s.i + 1], AddScaled(s.basis[s.i + 1], s.basis[s.i], c), width, w)
  {
    hide IsWidth, Certified, OneValue, Flagged, KeptFlag, Minimal;
    var v, b, T := s.basis[s.i + 1], s.basis[s.i], s.basis[s.nZero..s.i];
    LastSlice(s.basis, s.nZero, s.i);
    AroundMultiplier(S, T, b, v, width, saved[s.nZero..s.i], alpha, mu0, a0.width, mu1, a1.width, c, G, w);
    WidthAlong(S, T, b, v, width, c, w);
  }

  // ---------------------------------------------------------------- settling row i + 1

  /** What holds between the combination of row i + 1 and the comparison. */
  ghost predicate Settled(S: iset<Vec>, r: State, fNew: real, fixed: bool, exact: bool, zero: nat, w: nat) {
    && r.i + 1 < |r.basis| && r.which < |r.buffers| && r.i <= |r.buffers[r.which]|
    && r.nZero <= r.i + 2 && NonEmpty(S) && Zeroed(S, r.basis, r.f, zero, r.nZero, w)
    && Measured(S, r.basis, r.f, r.nZero, r.i + 1, w) && Reduced(S, r.basis, r.nZero, r.i, w)
    && (r.i < r.nZero ==> fNew >= 0.0)
    && (r.nZero <= r.i ==>
      var T, b, u := r.basis[r.nZero..r.i], r.basis[r.i], r.basis[r.i + 1];
      && Solved(S, T, u, fNew, r.buffers[r.which][r.nZero..r.i], w) && Minimal(S, T, u, b, fNew, w)
      && KeptFlag(S, T, u, fNew, fixed, w) && (exact ==> Flagged(S, T, u, fNew, fixed, w)))
  }

  lemma ZeroedKept(S: iset<Vec>, S': iset<Vec>, B: seq<Row>, B': seq<Row>, f: seq<real>, f': seq<real>,
                   zero: nat, n: nat, w: nat)
    requires Zeroed(S, B, f, zero, n, w) && S' <= S && n <= |B'| && n <= |f'|
    requires B'[..n] == B[..n] && f'[..n] == f[..n]
    ensures Zeroed(S', B', f', zero, n, w)
  {
    hide Bounded;
    forall k | zero <= k < n ensures Null(S', B'[k], w) && f'[k] == 0.0 {
      assert B'[..n][k] == B[..n][k] && f'[..n][k] == f[..n][k];
      BoundedOn(S', S, B[k], 0.0, w);
    }
  }

  /** Rows lo..i decide their widths and whether they are reduced. */
  lemma PrefixKept(S: iset<Vec>, B: seq<Row>, B': seq<Row>, f: seq<real>, f': seq<real>,
                   lo: nat, i: nat, w: nat)
    requires Measured(S, B, f, lo, i, w) && Reduced(S, B, lo, i, w)
    requires i < |B'| && i < |f'| && B'[..i + 1] == B[..i + 1] && f'[..i + 1] == f[..i + 1]
    ensures Measured(S, B', f', lo, i, w) && Reduced(S, B', lo, i, w)
  {
    hide IsWidth, Accepted;
    forall k | lo <= k <= i ensures IsWidth(S, B'[lo..k], B'[k], f'[k], w) {
      SameSlice(B, B', lo, k, i + 1);
      assert f'[..i + 1][k] == f[..i + 1][k];
    }
    forall k | lo <= k < i ensures Accepted(S, B'[lo..k], B'[k], B'[k + 1], w) {
      SameSlice(B, B', lo, k, i + 1);
      SameSlice(B, B', lo, k + 1, i + 1);
    }
  }

  lemma SameSlice(B: seq<Row>, B': seq<Row>, lo: nat, k: nat, n: nat)
    requires n <= |B| && n <= |B'| && B'[..n] == B[..n] && lo <= k < n
    ensures B'[lo..k] == B[lo..k] && B'[k] == B[k]
  {
    SliceOfPrefix(B, lo, k, n);
    SliceOfPrefix(B', lo, k, n);
  }

  lemma SliceOfPrefix(B: seq<Row>, lo: nat, k: nat, n: nat)
    requires lo <= k < n <= |B|
    ensures B[..n][lo..k] == B[lo..k] && B[..n][k] == B[k]
  {
  }

  lemma MeasuredNext(S: iset<Vec>, B: seq<Row>, f: seq<real>, lo: nat, i: nat, w: nat)
    requires i + 1 < |B| && i + 1 < |f|
    requires lo <= i ==> Measured(S, B, f, lo, i, w)
    requires lo <= i + 1 ==> IsWidth(S, B[lo..i + 1], B[i + 1], f[i + 1], w)
    ensures Measured(S, B, f, lo, i + 1, w)
  {
    hide IsWidth;
  }

  lemma SettledAfter(S: iset<Vec>, s: State, r: State, c: int, width: real, fNew: real, fixed: bool,
                     before: bool, exact: bool, zero: nat, nb: nat, w: nat)
    requires s.Valid(zero, nb, w) && s.i + 1 < nb && Semantic(S, s, before, zero, w)
    requires |r.buffers| == 2 && r.which < 2 && |r.buffers[0]| == nb && |r.buffers[1]| == nb
    requires r == s.(basis := s.basis[s.i + 1 := AddScaled(s.basis[s.i + 1], s.basis[s.i], c)],
                     f := s.f[s.i + 1 := width], buffers := r.buffers, which := r.which)
    requires CombinedKnown(S, s, r, c, width, fNew, fixed, exact, w)
    ensures Settled(S, r, fNew, fixed, exact, zero, w)
  {
    hide IsWidth, Certified, OneValue, Flagged, KeptFlag, Minimal, NonEmpty, Measured, Reduced, Zeroed;
    ZeroedKept(S, S, s.basis, r.basis, s.f, r.f, zero, s.nZero, w);
    PrefixKept(S, s.basis, r.basis, s.f, r.f, s.nZero, s.i, w);
    if s.i + 1 == s.nZero {
      assert r.basis[s.nZero..s.i + 1] == [];
      WidthNonNegative(S, [], r.basis[s.i + 1], fNew, w);
    } else {
      SameSlice(s.basis, r.basis, s.nZero, s.i, s.i + 1);
      LastSlice(s.basis, s.nZero, s.i);
      LastSlice(r.basis, s.nZero, s.i);
    }
    MeasuredNext(S, r.basis, r.f, s.nZero, s.i, w);
  }

  lemma WideCombined(S: iset<Vec>, s: State, r: State, zero: nat, first: Row, w: nat)
    requires Wide(S, s, s.i, zero, first, w) && r.nZero == s.nZero && s.i < |r.basis| == |s.basis| && s.i < |r.f| && s.i < |s.f|
    requires r.basis[..s.i + 1] == s.basis[..s.i + 1] && r.f[..s.i + 1] == s.f[..s.i + 1]
    ensures Wide(S, r, s.i, zero, first, w)
  {
    hide KeptFlag;
    if s.nZero <= s.i {
      assert r.basis[..s.i + 1][s.nZero] == s.basis[..s.i + 1][s.nZero];
      assert r.f[..s.i + 1][s.nZero] == s.f[..s.i + 1][s.nZero];
    }
  }

  /** Row i + 1 behind null rows only, where it is not flagged. */
  lemma WideNext(S: iset<Vec>, r: State, fNew: real, fixed: bool, zero: nat, first: Row, w: nat)
    requires r.i + 1 == r.nZero < |r.basis| && r.nZero < |r.f| && r.f[r.nZero] == fNew
    requires IsWidth(S, [], r.basis[r.nZero], fNew, w) && Flagged(S, [], r.basis[r.nZero], fNew, fixed, w)
    ensures !fixed ==> Wide(S, r, r.i + 1, zero, first, w)
  {
    hide KeptFlag, Flagged, Reaches, Bounded;
    WidthLength(S, [], r.basis[r.nZero], fNew, w);
    FlaggedKept(S, [], r.basis[r.nZero], fNew, fixed, w);
    KeptNarrow(S, [], r.basis[r.nZero], fNew, fixed, w);
  }

  /** Row i + 1, behind null rows only, becomes null itself. */
  lemma SettledFixed(S: iset<Vec>, S': iset<Vec>, r: State, fNew: real, fixed: bool, exact: bool,
                     zero: nat, w: nat)
    requires Settled(S, r, fNew, fixed, exact, zero, w) && r.i + 1 == r.nZero
    requires S' <= S && NonEmpty(S') && Null(S', r.basis[r.i + 1], w) && |r.f| > r.i + 1
    ensures Settled(S', r.(f := r.f[r.i + 1 := 0.0], nZero := r.nZero + 1), fNew, fixed, exact, zero, w)
  {
    hide IsWidth, NonEmpty, Bounded, Accepted;
    var f := r.f[r.i + 1 := 0.0];
    ZeroedKept(S, S', r.basis, r.basis, r.f, f, zero, r.nZero, w);
  }

  lemma AcceptNext(S: iset<Vec>, r: State, fNew: real, fixed: bool, exact: bool, zero: nat, w: nat)
    requires Settled(S, r, fNew, fixed, exact, zero, w) && r.i < |r.f|
    requires 4.0 * fNew >= 3.0 * r.f[r.i]
    ensures Semantic(S, r.(useSaved := false, i := r.i + 1), exact, zero, w)
  {
    hide IsWidth, Certified, OneValue, Flagged, KeptFlag, Minimal, NonEmpty, Zeroed;
    if r.nZero <= r.i {
      var T := r.basis[r.nZero..r.i];
      assert IsWidth(S, T, r.basis[r.i], r.f[r.i], w);
      assert Accepted(S, T, r.basis[r.i], r.basis[r.i + 1], w);
    }
  }

  /** Rows i and i + 1 change places. */
  function Exchanged(B: seq<Row>, i: nat): (r: seq<Row>)
    requires i + 1 < |B|
    ensures |r| == |B|
  {
    B[i := B[i + 1]][i + 1 := B[i]]
  }

  lemma ExchangeBack(S: iset<Vec>, r: State, fNew: real, fixed: bool, exact: bool, zero: nat, w: nat)
    requires Settled(S, r, fNew, fixed, exact, zero, w) && r.nZero < r.i < |r.f| && |r.buffers| == 2
    ensures Semantic(S, r.(basis := Exchanged(r.basis, r.i), useSaved := true, savedWidth := fNew,
                           savedFixed := fixed, i := r.i - 1), exact, zero, w)
  {
    hide IsWidth, Certified, OneValue, Flagged, KeptFlag, Minimal, NonEmpty, Zeroed, Measured, Reduced;
    var B := Exchanged(r.basis, r.i);
    ZeroedKept(S, S, r.basis, B, r.f, r.f, zero, r.nZero, w);
    Shorter(S, r.basis, r.f, r.nZero, r.i, w);
    PrefixKept(S, r.basis, B, r.f, r.f, r.nZero, r.i - 1, w);
    SameSlice(r.basis, B, r.nZero, r.i - 1, r.i);
    assert B[r.nZero..r.i] == r.basis[r.nZero..r.i];
  }

  lemma Shorter(S: iset<Vec>, B: seq<Row>, f: seq<real>, lo: nat, i: nat, w: nat)
    requires Measured(S, B, f, lo, i + 1, w) && Reduced(S, B, lo, i, w) && 0 < i
    ensures Measured(S, B, f, lo, i - 1, w) && Reduced(S, B, lo, i - 1, w)
  {
    hide IsWidth, Accepted;
  }

  /** The first row that counts gets a new row in its place. */
  lemma ExchangeFirst(S: iset<Vec>, r: State, fNew: real, fixed: bool, exact: bool, zero: nat, w: nat)
    requires Settled(S, r, fNew, fixed, exact, zero, w) && r.nZero == r.i < |r.f|
    ensures IsWidth(S, [], r.basis[r.i + 1], fNew, w)
    ensures KeptFlag(S, [], r.basis[r.i + 1], fNew, fixed, w)
    ensures exact ==> Flagged(S, [], r.basis[r.i + 1], fNew, fixed, w)
    ensures Semantic(S, r.(basis := Exchanged(r.basis, r.i), f := r.f[r.i := fNew], useSaved := false),
                     exact, zero, w)
  {
    hide Certified, OneValue, Flagged, KeptFlag, Minimal, NonEmpty, Zeroed, Reaches, Bounded;
    var B, f := Exchanged(r.basis, r.i), r.f[r.i := fNew];
    assert r.basis[r.nZero..r.i] == [] && B[r.nZero..r.i] == [];
    ZeroedKept(S, S, r.basis, B, r.f, f, zero, r.nZero, w);
  }

  /** The first row that counts becomes null. */
  lemma FirstFixed(S: iset<Vec>, S': iset<Vec>, t: State, exact: bool, zero: nat, w: nat)
    requires Semantic(S, t, exact, zero, w) && t.nZero == t.i < |t.f| && !t.useSaved
    requires S' <= S && NonEmpty(S') && Null(S', t.basis[t.i], w)
    ensures Semantic(S', t.(f := t.f[t.i := 0.0], nZero := t.nZero + 1), exact, zero, w)
  {
    hide IsWidth, NonEmpty, Bounded, Accepted;
    ZeroedKept(S, S', t.basis, t.basis, t.f, t.f[t.i := 0.0], zero, t.nZero, w);
  }

  // ---------------------------------------------------------------- cutting

  /** A row that was cut to one value, with the width found before. The cut is exact
      if the flag was found for the row as it was cut. */
  datatype CutRecord = CutRecord(row: Row, width: real, exact: bool)
  {
    predicate Sure() { exact || width < 1.0 }
  }

  /** Fixes a row while no row that counts is in the tableau. */
  method CutRow(lp: Lp, t: State, v: Row, ghost F: real, ghost exact: bool, ghost zero: nat, ghost nb: nat)
    returns (empty: bool)
    requires Ready(lp, t, zero, nb) && t.Tail() == t.i && NonEmpty(Within(lp.region, lp.entries))
    requires BoundedRow(lp.region, v, lp.w) && IsWidth(Within(lp.region, lp.entries), [], v, F, lp.w)
    requires exact ==> OneValue(Within(lp.region, lp.entries), [], v, F, lp.w)
    modifies lp`entries, lp`conOffset, lp`solved
    ensures Ready(lp, t, zero, nb)
    ensures Within(lp.region, lp.entries) <= old(Within(lp.region, lp.entries))
    ensures Null(Within(lp.region, lp.entries), v, lp.w)
    ensures empty <==> !NonEmpty(Within(lp.region, lp.entries))
    ensures exact || F < 1.0 ==> KeepsPoints(old(Within(lp.region, lp.entries)), Within(lp.region, lp.entries))
  {
    hide Layout, Correct, Within, NonEmpty, OneValue, Flagged, KeptFlag, BoundedRow, IsPlummet, KeepsPoints, Reaches, Bounded;
    ghost var t0 := lp.entries;
    ghost var S := Within(lp.region, t0);
    Posed(lp, t, v, zero, nb, t.i, t.i);
    empty := lp.CutTo(v);
    ghost var p :| IsPlummet(lp.region, t0, v, p) && lp.entries == t0 + [Plane(v, p.value)] && empty == p.empty;
    LayoutCut(t0, lp.stack, lp.conOffset - 2, lp.base, t.basis, zero, t.i, v, p.value);
    WidthLength(S, [], v, F, lp.w);
    PlaneNull(lp.region, t0, v, p.value, lp.w);
    PlummetEmpty(lp.region, t0, v, p);
    if exact || F < 1.0 {
      if !exact { NarrowOneValue(S, [], v, F, lp.w); }
      CutKeepsPoints(lp.region, t0, v, p, F, lp.w);
    }
  }

  lemma PlummetEmpty(region: iset<Vec>, t: seq<Entry>, v: Row, p: Plummet)
    requires IsPlummet(region, t, v, p)
    ensures p.empty <==> !NonEmpty(Within(region, t + [Plane(v, p.value)]))
  {
  }

  // ---------------------------------------------------------------- one round

  datatype Exit = Going | First | Empty

  /** The rows zero..nb have changed by row operations only, and those before nZero
      not at all. */
  ghost predicate Transformed(B: seq<Row>, B': seq<Row>, steps: seq<Step>, zero: nat, nb: nat, nZero: nat, w: nat) {
    && Matrix(B, w) && nb <= |B| == |B'| && AllFit(steps, zero, nb) && B' == Run(steps, B, w)
    && nZero <= |B| && B'[..nZero] == B[..nZero]
  }

  ghost predicate AllSure(cuts: seq<CutRecord>) {
    forall k | 0 <= k < |cuts| :: cuts[k].Sure()
  }

  lemma AllSureConcat(c: seq<CutRecord>, d: seq<CutRecord>)
    requires AllSure(c) && AllSure(d)
    ensures AllSure(c + d)
  {
  }

  ghost predicate Cuts(R: iset<Vec>, S: iset<Vec>, cuts: seq<CutRecord>) {
    S <= R && (AllSure(cuts) ==> KeepsPoints(R, S))
  }

  lemma SureKeeps(R: iset<Vec>, S: iset<Vec>, cuts: seq<CutRecord>)
    requires Cuts(R, S, cuts)
    ensures AllSure(cuts) ==> KeepsPoints(R, S)
  {
  }

  lemma NoCuts(S: iset<Vec>)
    ensures Cuts(S, S, [])
  {
  }

  lemma OneCut(R: iset<Vec>, S: iset<Vec>, c: CutRecord)
    requires S <= R && (c.Sure() ==> KeepsPoints(R, S))
    ensures Cuts(R, S, [c])
  {
    assert AllSure([c]) ==> [c][0].Sure();
  }

  lemma CutsConcat(Q: iset<Vec>, R: iset<Vec>, S: iset<Vec>, c: seq<CutRecord>, d: seq<CutRecord>)
    requires Cuts(Q, R, c) && Cuts(R, S, d)
    ensures Cuts(Q, S, c + d)
  {
    if AllSure(c + d) {
      forall k | 0 <= k < |c| ensures c[k].Sure() { assert (c + d)[k] == c[k]; }
      forall k | 0 <= k < |d| ensures d[k].Sure() { assert (c + d)[|c| + k] == d[k]; }
      KeepsTransitive(Q, R, S);
    }
  }

  /** The first row that counts is known to have a width below 2. */
  ghost predicate FirstFound(S: iset<Vec>, t: State, zero: nat, nb: nat, w: nat) {
    && t.nZero < nb && t.nZero < |t.basis| && NonEmpty(S) && Zeroed(S, t.basis, t.f, zero, t.nZero, w)
    && NarrowRow(S, t.basis[t.nZero], w)
  }

  ghost predicate NarrowRow(S: iset<Vec>, v: Row, w: nat) {
    exists F :: F < 2.0 && IsWidth(S, [], v, F, w)
  }

  /** Every cut row is one of the rows lo..hi of the basis. */
  ghost predicate CutRows(cuts: seq<CutRecord>, B: seq<Row>, lo: nat, hi: nat) {
    lo <= hi <= |B| && forall k | 0 <= k < |cuts| :: cuts[k].row in B[lo..hi]
  }

  /** The third part of a round: row i + 1, behind null rows, is fixed. */
  method FixNext(lp: Lp, r: State, ghost fNew: real, ghost zero: nat, ghost nb: nat)
    returns (t: State, empty: bool, ghost cuts: seq<CutRecord>)
    requires Ready(lp, r, zero, nb) && r.i + 1 < nb && r.i + 1 == r.nZero && r.f[r.i + 1] == fNew
    requires Settled(Within(lp.region, lp.entries), r, fNew, true, true, zero, lp.w)
    requires IsWidth(Within(lp.region, lp.entries), [], r.basis[r.i + 1], fNew, lp.w)
    requires OneValue(Within(lp.region, lp.entries), [], r.basis[r.i + 1], fNew, lp.w)
    modifies lp`entries, lp`conOffset, lp`solved
    ensures Cuts(old(Within(lp.region, lp.entries)), Within(lp.region, lp.entries), cuts) && AllSure(cuts)
    ensures empty <==> !NonEmpty(Within(lp.region, lp.entries))
    ensures fNew == 0.0 ==> lp.entries == old(lp.entries)
    ensures empty ==> t == r
    ensures !empty ==>
      && t == r.(f := r.f[r.i + 1 := 0.0], nZero := r.nZero + 1)
      && Ready(lp, t, zero, nb)
      && Settled(Within(lp.region, lp.entries), t, fNew, true, true, zero, lp.w)
      && CutRows(cuts, t.basis, r.nZero, t.nZero)
  {
    hide Layout, Correct, Within, OneValue, Flagged, KeptFlag, BoundedRow, Cuts, Zeroed, Measured, Reduced, Reaches, Bounded, Solved, Minimal;
    ghost var S := Within(lp.region, lp.entries);
    var v := r.basis[r.i + 1];
    t, empty, cuts := r, false, [];
    SettledNonEmpty(S, r, fNew, true, true, zero, lp.w);
    if r.f[r.i + 1] != 0.0 {
      empty := CutRow(lp, r, v, fNew, true, zero, nb);
      cuts := [CutRecord(v, fNew, true)];
      OneCut(S, Within(lp.region, lp.entries), cuts[0]);
      if empty {
        return;
      }
    } else {
      ZeroWidthNull(S, v, lp.w);
      NoCuts(S);
    }
    SettledFixed(S, Within(lp.region, lp.entries), r, fNew, true, true, zero, lp.w);
    t := r.(f := r.f[r.i + 1 := 0.0], nZero := r.nZero + 1);
    OneRow(t.basis, r.nZero);
  }

  lemma OneRow(B: seq<Row>, k: nat)
    requires k < |B|
    ensures B[k..k + 1] == [B[k]]
  {
  }

  lemma SettledNonEmpty(S: iset<Vec>, r: State, fNew: real, fixed: bool, exact: bool, zero: nat, w: nat)
    requires Settled(S, r, fNew, fixed, exact, zero, w)
    ensures NonEmpty(S)
  {
  }

  /** The basis after the combination is one row operation away. */
  lemma CombinedStep(B: seq<Row>, i: nat, c: int, zero: nat, nb: nat, nZero: nat, w: nat)
    requires Matrix(B, w) && nb <= |B| && zero <= i && i + 1 < nb && nZero <= i + 1
    ensures Transformed(B, B[i + 1 := AddScaled(B[i + 1], B[i], c)], [AddTo(i, c)], zero, nb, nZero, w)
  {
    RunExtended([], AddTo(i, c), B, w);
    assert [] + [AddTo(i, c)] == [AddTo(i, c)];
    assert Run([], B, w) == B;
  }

  lemma ExchangedStep(B: seq<Row>, B1: seq<Row>, steps: seq<Step>, i: nat, zero: nat, nb: nat, nZero: nat, w: nat)
    requires Transformed(B, B1, steps, zero, nb, nZero, w) && zero <= i && i + 1 < nb && nZero <= i
    ensures Transformed(B, Exchanged(B1, i), steps + [Exchange(i)], zero, nb, nZero, w)
  {
    hide Run;
    RunExtended(steps, Exchange(i), B, w);
    assert Exchanged(B1, i) == Apply(Exchange(i), B1, w);
  }

  lemma AllBoundedKept(region: iset<Vec>, B: seq<Row>, i: nat, c: int, nb: nat, w: nat)
    requires AllBounded(region, B, nb, w) && i + 1 < nb
    ensures |B[i]| == |B[i + 1]| == w && AllBounded(region, B[i + 1 := AddScaled(B[i + 1], B[i], c)], nb, w)
  {
    hide BoundedRow;
    BoundedCombined(region, B[i + 1], B[i], c, w);
  }

  lemma AllBoundedExchanged(region: iset<Vec>, B: seq<Row>, i: nat, nb: nat, w: nat)
    requires AllBounded(region, B, nb, w) && i + 1 < nb
    ensures AllBounded(region, Exchanged(B, i), nb, w)
  {
    hide BoundedRow;
  }

  /** After the combination the tableau is still laid out for the same rows. */
  lemma ReadyCombined(lp: Lp, s: State, r: State, c: int, width: real, zero: nat, nb: nat)
    requires Ready(lp, s, zero, nb) && s.i + 1 < nb
    requires |r.buffers| == 2 && r.which < 2 && |r.buffers[0]| == nb && |r.buffers[1]| == nb
    requires r == s.(basis := s.basis[s.i + 1 := AddScaled(s.basis[s.i + 1], s.basis[s.i], c)],
                     f := s.f[s.i + 1 := width], buffers := r.buffers, which := r.which)
    ensures Ready(lp, r, zero, nb)
  {
    hide Layout, Correct, AllBounded, InSpace;
    AllBoundedKept(lp.region, s.basis, s.i, c, nb, lp.w);
    LayoutBasis(lp.entries, lp.stack, lp.conOffset, lp.base, s.basis, r.basis, zero, s.Tail(), s.i);
  }

  /** The round ends: either the rows change places or the next row is taken up. */
  method Compare(lp: Lp, r0: State, fNew: real, fixed: bool, onlyFirst: bool,
                 ghost exact: bool, ghost zero: nat, ghost nb: nat, ghost first: Row)
    returns (t: State, out: Exit, ghost exchange: seq<Step>, ghost cuts: seq<CutRecord>)
    requires Ready(lp, r0, zero, nb) && r0.i + 1 < nb
    requires Settled(Within(lp.region, lp.entries), r0, fNew, fixed, exact, zero, lp.w)
    requires Wide(Within(lp.region, lp.entries), r0, r0.i + 1, zero, first, lp.w)
    modifies lp`entries, lp`stack, lp`conOffset, lp`solved
    ensures Cuts(old(Within(lp.region, lp.entries)), Within(lp.region, lp.entries), cuts)
    ensures t.nZero >= r0.nZero
    ensures exchange == [] ==> t.basis == r0.basis
    ensures exchange != [] <==> 4.0 * fNew < 3.0 * r0.f[r0.i]
    ensures 4.0 * fNew < 3.0 * r0.f[r0.i] && r0.i == r0.nZero && fixed && !(onlyFirst && fNew < 2.0) ==>
      Null(Within(lp.region, lp.entries), r0.basis[r0.i + 1], lp.w)
    ensures out.Going? ==> Wide(Within(lp.region, lp.entries), t, t.i, zero, first, lp.w)
    ensures onlyFirst ==> AllSure(cuts)
    ensures out.First? <==> onlyFirst && fNew < 2.0 && r0.i == r0.nZero && exchange != []
    ensures exchange != [] ==>
      exchange == [Exchange(r0.i)] && r0.nZero <= r0.i && t.basis == Exchanged(r0.basis, r0.i)
    ensures out.Going? ==>
      Ready(lp, t, zero, nb) && Semantic(Within(lp.region, lp.entries), t, exact, zero, lp.w)
    ensures !out.Empty? ==> CutRows(cuts, t.basis, r0.nZero, t.nZero)
    ensures out.First? ==> onlyFirst && FirstFound(Within(lp.region, lp.entries), t, zero, nb, lp.w)
    ensures out.Empty? ==> t.nZero == r0.nZero && !NonEmpty(Within(lp.region, lp.entries))
  {
    hide Layout, Correct, Within, OneValue, Flagged, KeptFlag, AllBounded, InSpace, Cuts, Settled, Semantic, Reaches, Bounded,
         NonEmpty, FirstFound, Wide;
    ghost var S := Within(lp.region, lp.entries);
    NoCuts(S);
    cuts, exchange := [], [];
    var fOld := r0.f[r0.i];
    var r := r0.(useSaved := false);
    if 4.0 * fNew < 3.0 * fOld {
      NoExchange(S, r0, fNew, fixed, exact, zero, lp.w);
      exchange := [Exchange(r.i)];
      AllBoundedExchanged(lp.region, r.basis, r.i, nb, lp.w);
      LayoutBasis(lp.entries, lp.stack, lp.conOffset, lp.base, r.basis, Exchanged(r.basis, r.i), zero, r.nZero, r.i);
      if r.i > r.nZero {
        t := r.(basis := Exchanged(r.basis, r.i), useSaved := true, savedWidth := fNew,
                savedFixed := fixed, i := r.i - 1);
        ExchangeBack(S, r0, fNew, fixed, exact, zero, lp.w);
        LayoutPop(lp.entries, lp.stack, lp.conOffset, lp.base, t.basis, zero, t.nZero, r.i);
        ghost var t0 := lp.entries;
        lp.DelRow();
        assert t0 == lp.entries + [t0[|t0| - 1]];
        WithinPush(lp.region, lp.entries, t.basis[t.i]);
        NothingCut(t.basis, t.nZero);
        WideBack(S, r0, t, zero, first, lp.w);
        out := Going;
      } else {
        t, out, cuts := ExchangeInPlace(lp, r0, fNew, fixed, onlyFirst, exact, zero, nb, first);
      }
    } else {
      AcceptNext(S, r0, fNew, fixed, exact, zero, lp.w);
      t := r.(i := r.i + 1);
      if r.i < r.nZero {
        LayoutPushHead(lp.entries, lp.stack, lp.conOffset, lp.base, r.basis, zero, r.i);
      } else {
        LayoutPush(lp.entries, lp.stack, lp.conOffset, lp.base, r.basis, zero, r.nZero, r.i);
      }
      WithinPush(lp.region, lp.entries, r.basis[r.i]);
      var _ := lp.AddRow(r.basis[r.i]);
      NothingCut(t.basis, t.nZero);
      WideSame(S, r0, t, zero, first, lp.w);
      out := Going;
    }
  }

  lemma WideBack(S: iset<Vec>, r: State, t: State, zero: nat, first: Row, w: nat)
    requires Wide(S, r, r.i + 1, zero, first, w) && zero <= r.nZero < r.i && r.i + 1 < |r.basis|
    requires t.nZero == r.nZero && t.f == r.f && t.basis == Exchanged(r.basis, r.i)
    ensures Wide(S, t, r.i - 1, zero, first, w)
  {
    hide KeptFlag;
  }

  lemma WideSame(S: iset<Vec>, r: State, t: State, zero: nat, first: Row, w: nat)
    requires Wide(S, r, r.i + 1, zero, first, w) && t.nZero == r.nZero && t.f == r.f && t.basis == r.basis && t.i == r.i + 1
    ensures Wide(S, t, t.i, zero, first, w)
  {
  }

  lemma NothingCut(B: seq<Row>, n: nat)
    requires n <= |B|
    ensures CutRows([], B, n, n)
  {
  }

  /** Behind a null row the widths never call for an exchange. */
  lemma NoExchange(S: iset<Vec>, r: State, fNew: real, fixed: bool, exact: bool, zero: nat, w: nat)
    requires Settled(S, r, fNew, fixed, exact, zero, w) && zero <= r.i < |r.f|
    requires 4.0 * fNew < 3.0 * r.f[r.i]
    ensures r.nZero <= r.i
  {
    hide IsWidth, OneValue, Flagged, KeptFlag, Minimal, Certified, Bounded, Accepted;
  }

  /** The exchange of the first row that counts. */
  method ExchangeInPlace(lp: Lp, r0: State, fNew: real, fixed: bool, onlyFirst: bool,
                         ghost exact: bool, ghost zero: nat, ghost nb: nat, ghost first: Row)
    returns (t: State, out: Exit, ghost cuts: seq<CutRecord>)
    requires Ready(lp, r0, zero, nb) && r0.i + 1 < nb && r0.i == r0.nZero
    requires Settled(Within(lp.region, lp.entries), r0, fNew, fixed, exact, zero, lp.w)
    modifies lp`entries, lp`conOffset, lp`solved
    ensures Cuts(old(Within(lp.region, lp.entries)), Within(lp.region, lp.entries), cuts)
    ensures t.nZero >= r0.nZero && t.basis == Exchanged(r0.basis, r0.i)
    ensures fixed && !(onlyFirst && fNew < 2.0) ==> Null(Within(lp.region, lp.entries), r0.basis[r0.i + 1], lp.w)
    ensures out.Going? ==> Wide(Within(lp.region, lp.entries), t, t.i, zero, first, lp.w)
    ensures onlyFirst ==> AllSure(cuts)
    ensures out.First? <==> onlyFirst && fNew < 2.0
    ensures fNew == 0.0 ==> lp.entries == old(lp.entries)
    ensures out.Going? ==>
      Ready(lp, t, zero, nb) && Semantic(Within(lp.region, lp.entries), t, exact, zero, lp.w)
    ensures !out.Empty? ==> CutRows(cuts, t.basis, r0.nZero, t.nZero)
    ensures out.First? ==> onlyFirst && FirstFound(Within(lp.region, lp.entries), t, zero, nb, lp.w)
    ensures out.Empty? ==> t.nZero == r0.nZero && !NonEmpty(Within(lp.region, lp.entries))
  {
    hide Layout, Correct, Within, OneValue, Flagged, KeptFlag, AllBounded, InSpace, Cuts, Settled, Semantic, Reaches, Bounded, NonEmpty, BoundedRow;
    ghost var S := Within(lp.region, lp.entries);
    NoCuts(S);
    cuts := [];
    AllBoundedExchanged(lp.region, r0.basis, r0.i, nb, lp.w);
    LayoutBasis(lp.entries, lp.stack, lp.conOffset, lp.base, r0.basis, Exchanged(r0.basis, r0.i), zero, r0.nZero, r0.i);
    ExchangeFirst(S, r0, fNew, fixed, exact, zero, lp.w);
    t := r0.(basis := Exchanged(r0.basis, r0.i), f := r0.f[r0.i := fNew], useSaved := false);
    NothingCut(t.basis, t.nZero);
    var v := t.basis[t.nZero];
    KeptNarrow(S, [], v, fNew, fixed, lp.w);
    if onlyFirst && fNew < 2.0 {
      SemanticZeroed(S, t, exact, zero, lp.w);
      return t, First, [];
    }
    if fixed {
      if t.f[t.nZero] != 0.0 {
        BoundedAt(lp.region, t.basis, t.nZero, nb, lp.w);
        SemanticZeroed(S, t, exact, zero, lp.w);
        if exact { FlaggedOneValue(S, [], v, fNew, fixed, lp.w); }
        var empty := CutRow(lp, t, v, fNew, exact, zero, nb);
        cuts := [CutRecord(v, fNew, exact)];
        OneCut(S, Within(lp.region, lp.entries), cuts[0]);
        if empty {
          return t, Empty, cuts;
        }
      } else {
        ZeroWidthNull(S, v, lp.w);
        SemanticZeroed(S, t, exact, zero, lp.w);
      }
      FirstFixed(S, Within(lp.region, lp.entries), t, exact, zero, lp.w);
      t := t.(f := t.f[t.nZero := 0.0], nZero := t.nZero + 1);
      OneRow(t.basis, r0.nZero);
      WideFixed(Within(lp.region, lp.entries), t, t.i, zero, first, lp.w);
    }
    out := Going;
  }

  lemma SemanticZeroed(S: iset<Vec>, t: State, exact: bool, zero: nat, w: nat)
    requires Semantic(S, t, exact, zero, w)
    ensures Zeroed(S, t.basis, t.f, zero, t.nZero, w) && NonEmpty(S) && t.nZero <= t.i + 1
  {
  }

  lemma BoundedAt(region: iset<Vec>, B: seq<Row>, k: nat, nb: nat, w: nat)
    requires AllBounded(region, B, nb, w) && k < nb
    ensures BoundedRow(region, B[k], w)
  {
  }

  lemma CutRowsConcat(c: seq<CutRecord>, d: seq<CutRecord>, B: seq<Row>, B': seq<Row>, lo: nat, mid: nat, hi: nat)
    requires CutRows(c, B, lo, mid) && CutRows(d, B', mid, hi) && B'[..mid] == B[..mid]
    ensures CutRows(c + d, B', lo, hi)
  {
    assert B'[lo..hi] == B'[lo..mid] + B'[mid..hi];
    assert B'[lo..mid] == B'[..mid][lo..] && B[lo..mid] == B[..mid][lo..];
    forall k | 0 <= k < |c + d| ensures (c + d)[k].row in B'[lo..hi] {
      if k < |c| { assert c[k].row in B[lo..mid]; } else { assert d[k - |c|].row in B'[mid..hi]; }
    }
  }

  /** Row i + 1 waits behind null rows only: the flag plays no part. */
  lemma SettledFlags(S: iset<Vec>, r: State, fNew: real, fixed: bool, exact: bool, fixed': bool, exact': bool,
                     zero: nat, w: nat)
    requires Settled(S, r, fNew, fixed, exact, zero, w) && r.i < r.nZero
    ensures Settled(S, r, fNew, fixed', exact', zero, w)
  {
  }

  lemma KnownBehindNull(S: iset<Vec>, s: State, t: State, c: int, width: real, fNew: real, fixed: bool,
                        exact: bool, w: nat)
    requires s.i + 1 < |s.basis| && |s.basis[s.i]| == |s.basis[s.i + 1]| && t.which < |t.buffers|
    requires CombinedKnown(S, s, t, c, width, fNew, fixed, exact, w) && s.i + 1 == s.nZero
    ensures fNew == width && IsWidth(S, [], AddScaled(s.basis[s.i + 1], s.basis[s.i], c), fNew, w)
    ensures Flagged(S, [], AddScaled(s.basis[s.i + 1], s.basis[s.i], c), fNew, fixed, w)
    ensures fixed ==> OneValue(S, [], AddScaled(s.basis[s.i + 1], s.basis[s.i], c), fNew, w)
  {
    FlaggedOneValue(S, [], AddScaled(s.basis[s.i + 1], s.basis[s.i], c), fNew, fixed, w);
  }

  lemma RowLengths(B: seq<Row>, i: nat, w: nat)
    requires Matrix(B, w) && i + 1 < |B|
    ensures |B[i]| == |B[i + 1]| == w
  {
  }

  /** The first two parts of a round. */
  method NextRow(lp: Lp, s: State, ghost exact: bool, ghost zero: nat, ghost nb: nat, ghost first: Row)
    returns (r: State, fNew: real, fixed: bool, ghost e: bool, ghost steps: seq<Step>)
    requires Ready(lp, s, zero, nb) && s.i + 1 < nb
    requires Semantic(Within(lp.region, lp.entries), s, exact, zero, lp.w)
    requires Wide(Within(lp.region, lp.entries), s, s.i, zero, first, lp.w)
    modifies lp`entries, lp`stack, lp`solved
    ensures Within(lp.region, lp.entries) == old(Within(lp.region, lp.entries))
    ensures Ready(lp, r, zero, nb) && r.i == s.i && r.nZero == s.nZero
    ensures Settled(Within(lp.region, lp.entries), r, fNew, fixed, e, zero, lp.w)
    ensures Transformed(s.basis, r.basis, steps, zero, nb, s.nZero, lp.w)
    ensures r.i + 1 == r.nZero && fixed ==>
      r.f[r.i + 1] == fNew && IsWidth(Within(lp.region, lp.entries), [], r.basis[r.i + 1], fNew, lp.w)
      && OneValue(Within(lp.region, lp.entries), [], r.basis[r.i + 1], fNew, lp.w)
    ensures r.i + 1 != r.nZero || !fixed ==> Wide(Within(lp.region, lp.entries), r, r.i + 1, zero, first, lp.w)
    ensures |steps| > 0
  {
    hide Wide, Layout, Within, OneValue, Flagged, KeptFlag, AllBounded, InSpace, Settled, Semantic, Reaches, Bounded,
         NonEmpty, NextKnown, CombinedKnown, Zeroed, Run, AllFit, Transformed, Correct;
    ghost var S := Within(lp.region, lp.entries);
    SemanticZeroed(S, s, exact, zero, lp.w);
    RowLengths(s.basis, s.i, lp.w);
    var row, width, flag, alpha, saved := NextWidth(lp, s, exact, zero, nb);
    ghost var c;
    r, fNew, fixed, c, e := Combine(lp, s, row, width, flag, alpha, saved, s.useSaved ==> exact, zero, nb);
    SettledAfter(S, s, r, c, width, fNew, fixed, exact, e, zero, nb, lp.w);
    ReadyCombined(lp, s, r, c, width, zero, nb);
    CombinedStep(s.basis, s.i, c, zero, nb, s.nZero, lp.w);
    steps := [AddTo(s.i, c)];
    WideCombined(S, s, r, zero, first, lp.w);
    if r.i + 1 == r.nZero {
      KnownBehindNull(S, s, r, c, width, fNew, fixed, e, lp.w);
      WideNext(S, r, fNew, fixed, zero, first, lp.w);
    } else {
      WideBound(S, r, r.i, zero, first, lp.w);
    }
  }

  lemma WideBound(S: iset<Vec>, r: State, bound: nat, zero: nat, first: Row, w: nat)
    requires Wide(S, r, bound, zero, first, w) && r.nZero != bound + 1
    ensures Wide(S, r, bound + 1, zero, first, w)
  {
  }

  lemma WideFixed(S: iset<Vec>, r: State, bound: nat, zero: nat, first: Row, w: nat)
    requires r.nZero > bound
    ensures Wide(S, r, bound, zero, first, w)
  {
  }

  /** One round of the loop. */
  method Round(lp: Lp, s: State, onlyFirst: bool, ghost exact: bool, ghost zero: nat, ghost nb: nat, ghost first: Row)
    returns (t: State, out: Exit, ghost exact': bool, ghost steps: seq<Step>, ghost cuts: seq<CutRecord>)
    requires Ready(lp, s, zero, nb) && s.i + 1 < nb
    requires Semantic(Within(lp.region, lp.entries), s, exact, zero, lp.w)
    requires Wide(Within(lp.region, lp.entries), s, s.i, zero, first, lp.w)
    modifies lp`entries, lp`stack, lp`conOffset, lp`solved
    ensures |steps| > 0
    ensures out.Going? ==> Wide(Within(lp.region, lp.entries), t, t.i, zero, first, lp.w)
    ensures onlyFirst ==> AllSure(cuts)
    ensures Transformed(s.basis, t.basis, steps, zero, nb, s.nZero, lp.w) && t.nZero >= s.nZero
    ensures Cuts(old(Within(lp.region, lp.entries)), Within(lp.region, lp.entries), cuts)
    ensures !out.Empty? ==> CutRows(cuts, t.basis, s.nZero, t.nZero)
    ensures out.Going? ==>
      Ready(lp, t, zero, nb) && Semantic(Within(lp.region, lp.entries), t, exact', zero, lp.w)
    ensures out.First? ==> onlyFirst && FirstFound(Within(lp.region, lp.entries), t, zero, nb, lp.w)
    ensures out.Empty? ==> t.nZero <= nb && !NonEmpty(Within(lp.region, lp.entries))
  {
    hide Layout, Within, OneValue, Flagged, KeptFlag, AllBounded, InSpace, Cuts, Settled, Semantic, Reaches, Bounded,
         NonEmpty, FirstFound, Zeroed, Run, AllFit, Transformed, CutRows, Correct, Matrix, Wide;
    ghost var S := Within(lp.region, lp.entries);
    var r, fNew, fixed;
    r, fNew, fixed, exact', steps := NextRow(lp, s, exact, zero, nb, first);
    cuts := [];
    NoCuts(S);
    NothingCut(r.basis, r.nZero);
    if r.i + 1 == r.nZero && fixed {
      var empty;
      SettledFlags(S, r, fNew, fixed, exact', true, true, zero, lp.w);
      r, empty, cuts := FixNext(lp, r, fNew, zero, nb);
      if empty {
        return r, Empty, exact', steps, cuts;
      }
      SettledFlags(Within(lp.region, lp.entries), r, fNew, true, true, fixed, exact', zero, lp.w);
      WideFixed(Within(lp.region, lp.entries), r, r.i + 1, zero, first, lp.w);
    }
    ghost var S1, exchange, cuts2 := Within(lp.region, lp.entries), [], [];
    t, out, exchange, cuts2 := Compare(lp, r, fNew, fixed, onlyFirst, exact', zero, nb, first);
    if onlyFirst { AllSureConcat(cuts, cuts2); }
    CutsConcat(S, S1, Within(lp.region, lp.entries), cuts, cuts2);
    if exchange != [] {
      ExchangedStep(s.basis, r.basis, steps, r.i, zero, nb, s.nZero, lp.w);
      steps := steps + exchange;
    }
    if !out.Empty? {
      assert t.basis[..r.nZero] == r.basis[..r.nZero];
      CutRowsConcat(cuts, cuts2, r.basis, t.basis, s.nZero, r.nZero, t.nZero);
    }
    cuts := cuts + cuts2;
  }

  // ---------------------------------------------------------------- the whole run

  datatype Outcome = Unchanged | Complete | FirstOnly | Infeasible | Interrupted

  class Tab {
    const nVar: nat
    const nUnbounded: nat
    const base: nat
    const empty: bool
    ghost const region: iset<Vec>
    const solver: Solver
    const cutter: Cutter
    var basis: seq<Row>
    var nZero: nat

    constructor (nVar: nat, nUnbounded: nat, base: nat, empty: bool, ghost region: iset<Vec>,
                 solver: Solver, cutter: Cutter, basis: seq<Row>, nZero: nat)
      requires nUnbounded <= nVar && Matrix(basis, nVar) && |basis| == nVar && InSpace(region, nVar)
      requires !empty ==> NonEmpty(region) && AllBounded(region, basis, nVar - nUnbounded, nVar)
      requires Correct(region, base, solver, cutter, nVar)
      ensures Valid() && this.basis == basis && this.nZero == nZero && this.region == region
      ensures this.nVar == nVar && this.nUnbounded == nUnbounded && this.empty == empty
    {
      this.nVar, this.nUnbounded, this.base, this.empty := nVar, nUnbounded, base, empty;
      this.region, this.solver, this.cutter, this.basis, this.nZero := region, solver, cutter, basis, nZero;
    }

    /** All but the last nUnbounded rows of the basis are bounded on the set. */
    ghost predicate Valid()
      reads this
    {
      && nUnbounded <= nVar && Matrix(basis, nVar) && |basis| == nVar && InSpace(region, nVar)
      && (!empty ==> NonEmpty(region) && AllBounded(region, basis, nVar - nUnbounded, nVar))
      && Correct(region, base, solver, cutter, nVar)
    }
  }

  function Resting(): Solver {
    (q: nat, t: seq<Entry>, v: Row) => Answer(0.0, true, (k: int) => 0.0)
  }

  function Level(): Cutter {
    (q: nat, t: seq<Entry>, v: Row) => Plummet(0, false)
  }

  ghost function Origin(n: nat): Vec {
    seq(n, _ => 0.0)
  }

  lemma OriginHeight(v: Row, n: nat)
    ensures Height(v, Origin(n)) == 0.0 && Gap(v, Origin(n), Origin(n)) == 0.0
  {
    if |v| == n { DotZero(Lift(v), Origin(n), n); }
  }

  lemma {:induction false} NoDual(t: seq<Entry>, base: int, dual: int -> real, x: Vec, y: Vec)
    requires forall k :: dual(k) == 0.0
    ensures WeightedEntries(t, base, dual, x, y) == 0.0
    decreases |t|
  {
    if t != [] { NoDual(t[..|t| - 1], base, dual, x, y); }
  }

  /** On one point every linear program has the answer 0. */
  lemma OriginCorrect(n: nat, base: nat)
    ensures Correct(iset{Origin(n)}, base, Resting(), Level(), n)
  {
    hide Height, Gap, RowsOf, Size;
    var R, o := iset{Origin(n)}, Origin(n);
    forall q, t, v | WellPosed(R, t, v, n)
      ensures IsAnswer(R, base, t, v, Resting()(q, t, v), n) && IsPlummet(R, t, v, Level()(q, t, v))
    {
      OriginHeight(v, n);
      var S := Within(R, t);
      assert o in S;
      assert Pair(S, RowsOf(t), o, o, n) by {
        forall k | 0 <= k < |RowsOf(t)| ensures Gap(RowsOf(t)[k], o, o) == 0.0 { OriginHeight(RowsOf(t)[k], n); }
      }
      NoDual(t, base, Resting()(q, t, v).dual, o, o);
      WithinExtended(R, t, Plane(v, 0));
      assert o in Within(R, t + [Plane(v, 0)]);
    }
  }

  /** The origin with any basis is a tableau to start from. */
  method OnePoint(n: nat, base: nat, basis: seq<Row>) returns (tab: Tab)
    requires Matrix(basis, n) && |basis| == n
    ensures fresh(tab) && tab.Valid() && !tab.empty && tab.basis == basis && tab.nVar == n && tab.nUnbounded == 0
  {
    OriginCorrect(n, base);
    assert Origin(n) in iset{Origin(n)};
    forall k | 0 <= k < n ensures BoundedRow(iset{Origin(n)}, basis[k], n) {
      OriginHeight(basis[k], n);
      assert Bounded(iset{Origin(n)}, [], basis[k], 0.0, n);
    }
    tab := new Tab(n, 0, base, false, iset{Origin(n)}, Resting(), Level(), basis, 0);
  }

  lemma WithinNothing(region: iset<Vec>)
    ensures Within(region, []) == region
  {
  }

  lemma LayoutStart(base: nat, B: seq<Row>, zero: nat)
    requires zero <= |B|
    ensures Layout([], [], base, base, B, zero, zero, zero)
  {
    assert B[zero..zero] == [];
  }

  lemma StartSemantic(S: iset<Vec>, s: State, width: real, exact: bool, zero: nat, w: nat)
    requires s.i == s.nZero == zero && zero < |s.basis| && zero < |s.f| && !s.useSaved
    requires s.f[zero] == width && NonEmpty(S) && IsWidth(S, [], s.basis[zero], width, w)
    ensures Semantic(S, s, exact, zero, w)
  {
    assert s.basis[zero..zero] == [];
  }

  /** Before the loop: the width of the first row, which is fixed if it is below 1. */
  method Start(lp: Lp, basis: seq<Row>, zero: nat, nb: nat)
    returns (s: State, empty: bool, ghost cuts: seq<CutRecord>)
    requires lp.entries == [] && lp.stack == [] && lp.conOffset == lp.base
    requires Matrix(basis, lp.w) && |basis| == lp.w && zero + 1 < nb <= lp.w
    requires AllBounded(lp.region, basis, nb, lp.w) && InSpace(lp.region, lp.w) && NonEmpty(lp.region)
    requires Correct(lp.region, lp.base, lp.solver, lp.cutter, lp.w)
    modifies lp`entries, lp`stack, lp`conOffset, lp`solved
    ensures s.basis == basis && zero <= s.nZero <= nb && s.i == zero
    ensures Cuts(lp.region, Within(lp.region, lp.entries), cuts)
    ensures empty ==> !NonEmpty(Within(lp.region, lp.entries))
    ensures !empty ==> CutRows(cuts, basis, zero, s.nZero)
    ensures AllSure(cuts) && (!empty ==> Wide(Within(lp.region, lp.entries), s, s.i, zero, basis[zero], lp.w))
    ensures forall F | F < 1.0 && IsWidth(lp.region, [], basis[zero], F, lp.w) :: empty || s.nZero == zero + 1
    ensures IsWidth(lp.region, [], basis[zero], 0.0, lp.w) ==> lp.entries == []
    ensures exists F ::
      IsWidth(lp.region, [], basis[zero], F, lp.w) && (F >= 1.0 ==> !empty && lp.entries == [] && s.nZero == zero && !s.useSaved && |s.f| == nb && s.f[zero] == F)
    ensures !empty ==>
      Ready(lp, s, zero, nb) && Semantic(Within(lp.region, lp.entries), s, true, zero, lp.w)
  {
    hide Layout, Correct, Within, OneValue, Flagged, KeptFlag, AllBounded, InSpace, Cuts, Semantic, Reaches, Bounded, NonEmpty, BoundedRow;
    var zeros := seq(nb, _ => 0.0);
    s, empty, cuts := State(basis, zero, zero, zeros, false, 0.0, false, [zeros, zeros], 0), false, [];
    ghost var S := lp.region;
    WithinNothing(S);
    NoCuts(S);
    NothingCut(basis, zero);
    LayoutStart(lp.base, basis, zero);
    var v := basis[zero];
    BoundedAt(lp.region, basis, zero, nb, lp.w);
    Posed(lp, s, v, zero, nb, zero, zero);
    var a := lp.Solve(v);
    NoRows();
    s := s.(f := zeros[zero := a.width]);
    AnswerWidth(lp.region, lp.base, [], v, a, lp.w);
    StartSemantic(S, s, a.width, true, zero, lp.w);
    forall F | IsWidth(S, [], v, F, lp.w) ensures F == a.width { WidthUnique(S, [], v, F, a.width, lp.w); }
    if s.f[zero] < 1.0 {
      if s.f[zero] != 0.0 {
        empty := CutRow(lp, s, v, a.width, false, zero, nb);
        cuts := [CutRecord(v, a.width, false)];
        OneCut(S, Within(lp.region, lp.entries), cuts[0]);
        if empty {
          return;
        }
      } else {
        ZeroWidthNull(S, v, lp.w);
      }
      FirstFixed(S, Within(lp.region, lp.entries), s, true, zero, lp.w);
      s := s.(f := s.f[zero := 0.0], nZero := zero + 1);
      OneRow(basis, zero);
    }
  }

  lemma NoRows()
    ensures RowsOf([]) == []
  {
  }

  lemma AnswerWidth(region: iset<Vec>, base: nat, t: seq<Entry>, v: Row, a: Answer, w: nat)
    requires IsAnswer(region, base, t, v, a, w)
    ensures IsWidth(Within(region, t), RowsOf(t), v, a.width, w)
  {
  }

  lemma NoSteps(B: seq<Row>, zero: nat, nb: nat, nZero: nat, w: nat)
    requires Matrix(B, w) && nb <= |B| && nZero <= |B|
    ensures Transformed(B, B, [], zero, nb, nZero, w)
  {
  }

  lemma TransformedConcat(B: seq<Row>, B1: seq<Row>, B2: seq<Row>, s: seq<Step>, t: seq<Step>,
                          zero: nat, nb: nat, n: nat, n': nat, w: nat)
    requires Transformed(B, B1, s, zero, nb, n, w) && Transformed(B1, B2, t, zero, nb, n', w) && n <= n'
    ensures Transformed(B, B2, s + t, zero, nb, n, w) && n' <= |B1| == |B2| && B2[..n'] == B1[..n']
  {
    hide Run;
    assert AllFit(s, 0, |B|) && AllFit(t, 0, |B|);
    RunConcat(s, t, B, w);
    assert B2[..n] == B2[..n'][..n] && B1[..n] == B1[..n'][..n];
  }

  lemma CompleteBasis(S: iset<Vec>, s: State, exact: bool, zero: nat, w: nat)
    requires Semantic(S, s, exact, zero, w)
    ensures Reduced(S, s.basis, s.nZero, s.i, w)
  {
  }

  /** What the row operations leave alone: the rows outside zero..nb and the lattice.
      The start can be had back. */
  lemma TransformedMeaning(B: seq<Row>, B': seq<Row>, steps: seq<Step>, zero: nat, nb: nat, n: nat, w: nat)
    requires Transformed(B, B', steps, zero, nb, n, w)
    ensures Matrix(B', w) && forall r :: InLattice(r, B', w) <==> InLattice(r, B, w)
    ensures forall k | 0 <= k < |B| && (k < zero || k >= nb) :: B'[k] == B[k]
    ensures AllFit(Undo(steps), 0, |B|) && Run(Undo(steps), B', w) == B
  {
    hide Run, InLattice;
    assert AllFit(steps, 0, |B|);
    RunUndone(steps, B, w);
    forall r ensures InLattice(r, B', w) <==> InLattice(r, B, w) { SameLattice(steps, B, w, r); }
    forall k | 0 <= k < |B| && (k < zero || k >= nb) ensures B'[k] == B[k] {
      RunKeeps(steps, B, w, zero, nb, k);
    }
  }

  lemma FirstNarrow(S: iset<Vec>, s: State, zero: nat, nb: nat, w: nat)
    requires FirstFound(S, s, zero, nb, w)
    ensures s.nZero < nb && s.nZero < |s.basis| && NonEmpty(S) && NarrowRow(S, s.basis[s.nZero], w)
    ensures Zeroed(S, s.basis, s.f, zero, s.nZero, w)
  {
  }

  /** The first row that counts has at least width 1; unless it is still the row that
      was there first, it was not flagged. */
  ghost predicate FirstWide(S: iset<Vec>, B: seq<Row>, nZero: nat, zero: nat, B0: seq<Row>, w: nat) {
    && nZero < |B| && zero < |B0|
    && exists F ::
      && IsWidth(S, [], B[nZero], F, w) && F >= 1.0
      && (KeptFlag(S, [], B[nZero], F, false, w) || (nZero == zero && B[nZero] == B0[zero]))
  }

  lemma WideFirst(S: iset<Vec>, s: State, exact: bool, zero: nat, B0: seq<Row>, w: nat)
    requires zero < |B0| && Wide(S, s, s.i, zero, B0[zero], w) && Semantic(S, s, exact, zero, w) && s.nZero <= s.i
    ensures FirstWide(S, s.basis, s.nZero, zero, B0, w)
  {
    hide KeptFlag, IsWidth;
    assert s.basis[s.nZero..s.nZero] == [];
    assert IsWidth(S, s.basis[s.nZero..s.nZero], s.basis[s.nZero], s.f[s.nZero], w);
  }

  /** `isl_tab_compute_reduced_basis`, for at most the given number of rounds. S is
      the set left by the cuts. */
  method ComputeReducedBasis(tab: Tab, onlyFirst: bool, rounds: nat)
    returns (o: Outcome, ghost S: iset<Vec>, ghost steps: seq<Step>, ghost cuts: seq<CutRecord>)
    requires tab.Valid()
    modifies tab`basis, tab`nZero
    ensures o.Unchanged? <==> tab.empty || tab.nVar - tab.nUnbounded <= old(tab.nZero) + 1
    ensures o.Unchanged? ==> tab.basis == old(tab.basis) && tab.nZero == old(tab.nZero)
    ensures !o.Unchanged? ==>
      Transformed(old(tab.basis), tab.basis, steps, old(tab.nZero), tab.nVar - tab.nUnbounded, old(tab.nZero), tab.nVar)
    ensures !o.Unchanged? ==>
      old(tab.nZero) <= tab.nZero <= tab.nVar - tab.nUnbounded && Cuts(tab.region, S, cuts)
    ensures o.Complete? || o.FirstOnly? || o.Interrupted? ==>
      NonEmpty(S) && CutRows(cuts, tab.basis, old(tab.nZero), tab.nZero)
      && AllNull(S, tab.basis[old(tab.nZero)..tab.nZero], tab.nVar)
    ensures o.Complete? ==>
      Reduced(S, tab.basis, tab.nZero, tab.nVar - tab.nUnbounded - 1, tab.nVar)
    ensures o.Complete? && tab.nZero < tab.nVar - tab.nUnbounded ==>
      FirstWide(S, tab.basis, tab.nZero, old(tab.nZero), old(tab.basis), tab.nVar)
    ensures onlyFirst && !o.Unchanged? ==> KeepsPoints(tab.region, S)
    ensures o.Interrupted? ==> |steps| >= rounds
    ensures o.FirstOnly? ==> onlyFirst && tab.nZero < |tab.basis| && NarrowRow(S, tab.basis[tab.nZero], tab.nVar)
    ensures o.Infeasible? ==> !NonEmpty(S)
  {
    hide Layout, Correct, Within, AllBounded, InSpace, Cuts, Semantic, NonEmpty, Run, AllFit, FirstFound,
         Reduced, NarrowRow, LaidOut, CutRows, Transformed, Zeroed, AllNull, Wide, FirstWide, AllSure, KeepsPoints;
    var zero := tab.nZero;
    var B0 := tab.basis;
    S, steps, cuts := tab.region, [], [];
    if tab.empty || tab.nVar - tab.nUnbounded <= zero + 1 {
      return Unchanged, S, steps, cuts;
    }
    var nb := tab.nVar - tab.nUnbounded;
    var lp := new Lp(tab.region, tab.nVar, tab.base, tab.solver, tab.cutter);
    var s, empty;
    s, empty, cuts := Start(lp, B0, zero, nb);
    tab.nZero := s.nZero;
    S := Within(lp.region, lp.entries);
    NoSteps(B0, zero, nb, zero, tab.nVar);
    SureKeeps(tab.region, S, cuts);
    if empty {
      return Infeasible, S, steps, cuts;
    }
    ghost var exact := true;
    var k := 0;
    while s.i < nb - 1 && k < rounds
      invariant fresh(lp) && lp.w == tab.nVar && lp.region == tab.region
      invariant Ready(lp, s, zero, nb) && S == Within(lp.region, lp.entries) && Semantic(S, s, exact, zero, lp.w)
      invariant Transformed(B0, s.basis, steps, zero, nb, zero, lp.w) && zero <= s.nZero <= nb
      invariant Cuts(tab.region, S, cuts) && CutRows(cuts, s.basis, zero, s.nZero)
      invariant Wide(S, s, s.i, zero, B0[zero], lp.w) && (onlyFirst ==> AllSure(cuts)) && k <= |steps|
      invariant tab.basis == B0 && tab.nZero == s.nZero
      decreases rounds - k
    {
      ghost var more, cuts2, R := [], [], S;
      ghost var s0 := s;
      var out;
      s, out, exact, more, cuts2 := Round(lp, s, onlyFirst, exact, zero, nb, B0[zero]);
      if onlyFirst { AllSureConcat(cuts, cuts2); }
      S := Within(lp.region, lp.entries);
      TransformedConcat(B0, s0.basis, s.basis, steps, more, zero, nb, zero, s0.nZero, lp.w);
      CutsConcat(tab.region, R, S, cuts, cuts2);
      if !out.Empty? { CutRowsConcat(cuts, cuts2, s0.basis, s.basis, zero, s0.nZero, s.nZero); }
      steps, cuts := steps + more, cuts + cuts2;
      tab.nZero := s.nZero;
      SureKeeps(tab.region, S, cuts);
      if out.First? {
        FirstNarrow(S, s, zero, nb, lp.w);
        NullRows(S, s.basis, s.f, zero, s.nZero, s.nZero, lp.w);
        tab.basis := s.basis;
        return FirstOnly, S, steps, cuts;
      }
      if out.Empty? {
        tab.basis := s.basis;
        return Infeasible, S, steps, cuts;
      }
      k := k + 1;
    }
    tab.basis := s.basis;
    SemanticZeroed(S, s, exact, zero, lp.w);
    NullRows(S, s.basis, s.f, zero, s.nZero, s.nZero, lp.w);
    SureKeeps(tab.region, S, cuts);
    if s.i < nb - 1 {
      return Interrupted, S, steps, cuts;
    }
    if s.nZero < nb { WideFirst(S, s, exact, zero, B0, lp.w); }
    CompleteBasis(S, s, exact, zero, lp.w);
    return Complete, S, steps, cuts;
  }

  // ---------------------------------------------------------------- a flag found for another row

  /** The triangle p0 + p1 >= 1, 3 p0 + 2 p1 <= 5, p0 + 6 p1 <= 11. */
  ghost function Wedge(): iset<Vec> {
    iset x: Vec | |x| == 2 && x[0] + x[1] >= 1.0 && 3.0 * x[0] + 2.0 * x[1] <= 5.0 && x[0] + 6.0 * x[1] <= 11.0
  }

  lemma Height2(v: Row, x: Vec)
    requires |v| == 2 && |x| == 2
    ensures Height(v, x) == (v[0] as real) * x[0] + (v[1] as real) * x[1]
  {
    var l := Lift(v);
    assert Dot(l, x, 2) == Dot(l, x, 1) + l[1] * x[1];
    assert Dot(l, x, 1) == Dot(l, x, 0) + l[0] * x[0];
  }

  lemma Gap2(v: Row, x: Vec, y: Vec)
    requires |v| == 2 && |x| == 2 && |y| == 2
    ensures Gap(v, x, y) == ((v[0] as real) * x[0] + (v[1] as real) * x[1])
                          - ((v[0] as real) * y[0] + (v[1] as real) * y[1])
  {
    GapHeights(v, x, y);
    Height2(v, x);
    Height2(v, y);
  }

  lemma WidthUnique(S: iset<Vec>, T: seq<Row>, v: Row, F: real, G: real, w: nat)
    requires IsWidth(S, T, v, F, w) && IsWidth(S, T, v, G, w)
    ensures F == G
  {
    hide Gap, Pair;
  }

  lemma WedgeWidth()
    ensures IsWidth(Wedge(), [], [1, 0], 4.0, 2)
  {
    hide Gap;
    var x, y := [3.0, -2.0], [-1.0, 2.0];
    Gap2([1, 0], x, y);
    assert Pair(Wedge(), [], x, y, 2);
    forall x, y | Pair(Wedge(), [], x, y, 2) ensures Gap([1, 0], x, y) <= 4.0 { Gap2([1, 0], x, y); }
  }

  lemma WedgeBounded()
    ensures AllBounded(Wedge(), [[1, 0], [0, 1]], 2, 2) && InSpace(Wedge(), 2) && NonEmpty(Wedge())
  {
    hide Gap;
    WedgeWidth();
    forall x, y | Pair(Wedge(), [], x, y, 2) ensures Gap([0, 1], x, y) <= 4.0 { Gap2([0, 1], x, y); }
    assert Bounded(Wedge(), [], [0, 1], 4.0, 2);
    assert [3.0, -2.0] in Wedge();
  }

  /** Along the first row the second has one widest pair, from (1/2, 1/2) to (1/2, 7/4). */
  lemma WedgePair(x: Vec, y: Vec)
    requires Pair(Wedge(), [[1, 0]], x, y, 2)
    ensures Gap([0, 1], x, y) <= 1.25
    ensures Gap([0, 1], x, y) >= 1.25 ==> x == [0.5, 1.75] && y == [0.5, 0.5]
  {
    hide Gap;
    assert Gap([[1, 0]][0], x, y) == 0.0;
    Gap2([1, 0], x, y);
    Gap2([0, 1], x, y);
  }

  /** The answer for the second row: the width 5/4, the flag set, the multiplier 1. */
  lemma WedgeNext(width: real, fixed: bool, alpha: real)
    requires Solved(Wedge(), [[1, 0]], [0, 1], width, [alpha], 2)
    requires Flagged(Wedge(), [[1, 0]], [0, 1], width, fixed, 2)
    ensures width == 1.25 && fixed && alpha == 1.0
  {
    hide Gap, Height;
    var b, v, p, q := [1, 0], [0, 1], [0.5, 1.75], [0.5, 0.5];
    Gap2(b, p, q);
    Gap2(v, p, q);
    assert Pair(Wedge(), [b], p, q, 2);
    var x, y :| Pair(Wedge(), [b], x, y, 2) && Gap(v, x, y) >= width
      && (fixed <==> Height(v, x).Floor <= Ceiling(Height(v, y)));
    WedgePair(x, y);
    Height2(v, x);
    Height2(v, y);
    WedgeMultiplier(width, alpha, [3.0, -2.0]);
    WedgeMultiplier(width, alpha, [-1.0, 2.0]);
  }

  lemma WedgeMultiplier(width: real, alpha: real, y: Vec)
    requires Certified(Wedge(), [[1, 0]], [0, 1], width, [alpha], 2) && y in Wedge()
    ensures 1.75 - y[1] + alpha * (0.5 - y[0]) <= width
  {
    hide Gap;
    var x := [0.5, 1.75];
    assert Pair(Wedge(), [], x, y, 2);
    WeightedLast([], [], [1, 0], alpha, x, y);
    assert [] + [[1, 0]] == [[1, 0]] && [] + [alpha] == [alpha];
    Gap2([1, 0], x, y);
    Gap2([0, 1], x, y);
  }

  /** No set on which (1, 1) is constant holds both (0, 1) and (1, 1). */
  lemma WedgePoints(S: iset<Vec>)
    requires Null(S, [1, 1], 2)
    ensures !KeepsPoints(Wedge(), S)
  {
    hide Gap;
    var p, q := Lift([0, 1]), Lift([1, 1]);
    assert p in Wedge() && q in Wedge();
    Gap2([1, 1], q, p);
    NullBoth(S, [1, 1], q, p);
  }

  lemma NullBoth(S: iset<Vec>, v: Row, x: Vec, y: Vec)
    requires Null(S, v, 2) && |x| == |y| == 2
    ensures x in S && y in S ==> Gap(v, x, y) <= 0.0
  {
    hide Gap;
    if x in S && y in S { assert Pair(S, [], x, y, 2); }
  }

  /** With a whole alpha other than 0 the flag of row i + 1 is kept for the combined
      row. From the rows (1, 0) and (0, 1) the first round on the wedge finds the
      width 5/4 and alpha 1 with the flag set, exchanges the rows, and cuts to one
      value of (1, 1), which is 1 at (0, 1) and 2 at (1, 1). */
  method WedgeLosesPoint(base: nat, solver: Solver, cutter: Cutter) returns (lp: Lp, t: State, out: Exit)
    requires Correct(Wedge(), base, solver, cutter, 2)
    ensures fresh(lp) && lp.region == Wedge() && !KeepsPoints(Wedge(), Within(Wedge(), lp.entries))
  {
    hide Wide, Layout, Correct, Within, Semantic, Null, KeepsPoints, Solved, Flagged, KeptFlag, IsWidth;
    WedgeBounded();
    WedgeWidth();
    lp := new Lp(Wedge(), 2, base, solver, cutter);
    var s, empty;
    ghost var cuts;
    s, empty, cuts := Start(lp, [[1, 0], [0, 1]], 0, 2);
    ghost var F :| IsWidth(lp.region, [], [1, 0], F, 2) &&
      (F >= 1.0 ==> !empty && lp.entries == [] && s.nZero == 0 && !s.useSaved && |s.f| == 2 && s.f[0] == F);
    WidthUnique(Wedge(), [], [1, 0], F, 4.0, 2);
    WithinNothing(Wedge());
    var row, width, fixed, alpha, saved := NextWidth(lp, s, true, 0, 2);
    FirstRows(saved, alpha, s.basis);
    WedgeNext(width, fixed, alpha);
    var r, fNew, flag;
    ghost var c, e;
    SemanticZeroed(Wedge(), s, true, 0, 2);
    r, fNew, flag, c, e := Combine(lp, s, row, width, fixed, alpha, saved, true, 0, 2);
    SettledAfter(Wedge(), s, r, c, width, fNew, flag, true, e, 0, 2, 2);
    ReadyCombined(lp, s, r, c, width, 0, 2);
    assert AddScaled([0, 1], [1, 0], 1) == [1, 1];
    ghost var exchange;
    WideCombined(Wedge(), s, r, 0, [1, 0], 2);
    WideBound(Wedge(), r, 0, 0, [1, 0], 2);
    t, out, exchange, cuts := Compare(lp, r, fNew, flag, false, e, 0, 2, [1, 0]);
    WedgePoints(Within(Wedge(), lp.entries));
  }

  lemma FirstRows(saved: seq<real>, alpha: real, B: seq<Row>)
    requires B == [[1, 0], [0, 1]]
    ensures saved[0..0] + [alpha] == [alpha] && B[0..1] == [[1, 0]]
  {
  }
}
