# Integer, index and lattice reasoning of Enzyme-JAX

A Dafny model of the parts of this repository that rest on exact reasoning about integers:
the affine-hull join, the quasi-affine arithmetic and the basis reduction of isl (`src/external/isl`),
and the demand-driven analysis and the tensor index code of `src/enzyme_ad/jax`.
`dafny verify dfyconfig.toml` checks everything.

## What is proved

**Affine hulls.** `affine_hull` works on two arrays of rows in place. The model keeps the arrays and
the updates, and the column loop carries one invariant: the rows below `row` agree on all processed
columns, the other rows are zero there, and every coefficient vector that expresses an equality over
both systems still does. At the end both arrays hold the same rows, and these span exactly the
intersection of the two row spaces. For systems with solutions this is the affine hull of the union.
Karr, "Affine Relationships Among Variables of a Program", section 5.2, gives the algorithm.
`extend_affine_hull` drives the join with a solver that may return any point; the result is the affine
hull of the integer points of the set.
(`IntArith`, `LinearAlgebra`, `JoinStep`, `JoinColumn`, `Points`, `Normalize`, `BasicSets`, `HullJoin`, `ExtendHull`)

**Basis reduction.** A state machine over the basis, `i`, `n_zero`, `F`, the saved multipliers and the
stack of the linear program. The set is any set of real points on which the bounded rows have attained
widths, and the solver may answer every query differently as long as each answer is an optimum with a
dual that proves it. The row space of the tableau is at all times the rows from the entry `n_zero` to `i`,
no pop underflows and no plane is ever popped, exchanges never reach fixed rows, and the basis that
comes out is reduced in the sense of Lovasz and Scarf.
The flag of a row is followed through the loop as the test at the pair where the width was found.
(`LatticeBasis`, `Widths`, `LpTableau`, `BasisReduction`)

**Quasi-affine expressions.** A denominator, coefficients and nested divisions, with one evaluation
function over integer points. Substitution, floor, ceiling, modulo, scaling, sums over different divisions,
products and quotients, and on top of them piecewise expressions with truncated division and the minimum
and maximum of a list.
(`Preimage`, `QuasiAffine`, `AffSum`, `Piecewise`, `PiecewiseOpt`, `TruncatedDivision`)

**Demand-driven analysis.** The work queue, the pending map, the reverse map and the cache of
`GuaranteedResultAnalysisBase` compute membership in the greatest fixpoint of the local rules, for cyclic
rules as well; the symmetric-matrix client is the semantic instance.
(`GuaranteedAnalysis`, `SymmetricAnalysis`)

**Tensors.** Strides and the two index conversions, padded constants, collapsing of dimensions,
reshape-like transposes and broadcasts, folding of batch dimensions, and the three ways in which slices under a
concatenation are merged: plain slices and wraps, reshaped slices, and slices below chains of slices, reshapes
and broadcasts. An operand is an expression over leaves, and each of its elements is named by the element of a
leaf that it is, so the lists before and after are compared element by element. The meanings of `slice`,
`concatenate`, `transpose`, `reshape`, `broadcast_in_dim` and `pad` are those of the StableHLO specification.
(`RowMajor`, `PaddedTensor`, `Collapsing`, `ReshapeLike`, `AxisFold`, `Operands`, `ConcatSlices`, `MovedAxis`,
`ConcatReshapes`, `ConcatElems`, `ConcatMerges`; `Wrappers` holds the option type)

## Where the code and what it promises differ

- `isl_pw_aff_list_opt` promises the minimum or maximum on the shared domain. The strict comparison
  subtracts a whole 1, so with rational values a point can be lost: `PiecewiseOpt.HalfAndZeroMissed`.
  `PiecewiseOpt.RealOptimum` gives the exact condition and `PiecewiseOpt.IntegerOptimum` the promised result.
  Ties go to the first element for a minimum and to the last one for a maximum.
- `isl_tab_compute_reduced_basis` keeps the flag of a row when it adds a whole multiple of the row before.
  The flag need not fit the new row: in `BasisReduction.WedgeLosesPoint` the first round cuts away an integer
  point. `LpTableau.FlagTransfers` says exactly when the flag carries over. A cut with a flag found for the row
  itself, or for a width below 1, loses no integer point; every cut records which kind it is. In the mode for the
  first row only there is no other cut (`BasisReduction.ComputeReducedBasis`).
- `getCollapsingMapping` can miss a split when a dimension has size zero: the greedy group for size zero is its
  zero and nothing more, and a one left in front of the zero stops the scan. [0, 2] to [0] is missed
  (`Collapsing.ZeroExtentMissed`), [3, 0, 1] to [3, 0] is found; `Collapsing.GreedyExactly` gives the condition.
- `canMergeSlicesAlongAxis` does not ask whether the first slice ends on a whole step of its stride:
  `ConcatSlices.MergeExact` gives the exact condition. Where the wrapped slice has a stride other than 1,
  `concatSliceSimplify` tests its whole range in place of the left part of the wrap: `ConcatSlices.StridedWrap`,
  with the exact condition in `ConcatSlices.WrapExact`. A wrap along another dimension never passes the test
  (`ConcatSlices.WrapsAlong`).
- `concatReshapeSliceSimplify` counts the place of the concatenation in the rank of the slice, also when the
  reshape inserts or deletes dimensions of size one, and uses the same test of slices. `ConcatReshapes.GroupExact`
  gives the exact condition, `ConcatReshapes.InsertedBefore` a case in which elements change places, and
  `ConcatReshapes.StridedGroup` one in which an element is lost. Empty tensors can lose their length
  (`ConcatReshapes.EmptyGroup`).
- `findConcatSlicedElem` maps a window through a broadcast without asking whether its dimension is repeated:
  `ConcatElems.RepeatExact`. `mergeConcatSlicedElems` is handed the dimension of the concatenation and does not
  look at it, and takes the broadcast dimensions from the source: `ConcatMerges.FusedExact` gives the exact
  condition and `ConcatMerges.RowsSideBySide` a case in which not even the shape is right.
- `reshapeIsUnsqueeze` looks for a size of one in the last dimension of the output only, so a reshape whose input
  has a one before its last dimension is not seen as unsqueezing, not even the identity: `ConcatElems.OneMatched`.
- The symmetric analysis says yes to every rank-k update, also to one that fills only one half of its result:
  `SymmetricAnalysis.SyrkExact`.
- The comment of `isl_pw_aff_tdiv_q` tests the sign of the dividend; the code tests the sign of the quotient,
  which is what rounds towards zero. The model follows the code.
- The constant check of the symmetric analysis lets a splat of any shape pass (`SymmetricAnalysis.SplatOfAnyShape`),
  so its answers mean something for square matrices only.

## Model

| member | source | states |
|---|---|---|
| BasicSets.BasicSet.DeleteRow | src/external/isl/isl_affine_hull.c:96-106 | the later rows move up by one, the deleted row becomes spare, nothing else changes |
| BasicSets.SetCommonMultiple | src/external/isl/isl_affine_hull.c:74-92 | both rows get the least common multiple as their entry in the column; no other row changes |
| BasicSets.ConstructColumnRows | src/external/isl/isl_affine_hull.c:117-147 | the pivot row of the first set is used to give both sets the same column, then leaves the first set |
| BasicSets.FindLastDifference | src/external/isl/isl_affine_hull.c:166-170 | the last position where the two sets differ in the column, or the guarantee that they agree |
| BasicSets.CombineAbove | src/external/isl/isl_affine_hull.c:178-188 | every earlier row of both sets is combined with the differing row by the same factors |
| BasicSets.TransformColumnRows | src/external/isl/isl_affine_hull.c:158-195 | either both sets agree in the column, or the differing row is eliminated from both with the same multipliers |
| BasicSets.JoinOneColumn | src/external/isl/isl_affine_hull.c:217-240 | one pass of the column loop: the first rows agree on one column more, every coefficient vector shared by both sets survives, and no row gets an equality its own set did not imply |
| BasicSets.Join | src/external/isl/isl_affine_hull.c:202-241 | the final assertion never fails: both sets end with the same rows, in reduced echelon form, and these span exactly the intersection of the two row spaces |
| JoinColumn.ConstructColumn | src/external/isl/isl_affine_hull.c:117-147 | constructing a column keeps the combinations common to both systems and the alignment of the processed columns |
| JoinColumn.TransformColumn | src/external/isl/isl_affine_hull.c:158-195 | transforming a column keeps the combinations common to both systems and the alignment of the processed columns |
| JoinColumn.AgreeingColumn | src/external/isl/isl_affine_hull.c:231-239 | a column in which both systems agree needs no change |
| JoinColumn.JoinDone | src/external/isl/isl_affine_hull.c:240-241 | after the last column both systems are the same rows |
| JoinStep.DropUnmatched | src/external/isl/isl_affine_hull.c:132-146 | a row with a pivot that the other system lacks takes part in no common combination |
| JoinStep.DropDiffering | src/external/isl/isl_affine_hull.c:178-194 | after elimination the row in which the systems differ takes part in no common combination |
| JoinStep.RowOpsEchelon | src/external/isl/isl_affine_hull.c:117-195 | scaling rows and adding a later row to earlier ones keeps the reduced echelon form |
| Normalize.NoSolutionRefuted | src/external/isl/isl_map_simplify.c:103-160 | an equality that normalization rejects holds at no integer point |
| Normalize.NoSolutionExactly | src/external/isl/isl_map_simplify.c:103-132 | the test by the greatest common divisor rejects an equality exactly when no integer point, or for a rational set no point, meets it |
| Normalize.ReductionUnique | src/external/isl/isl_map_simplify.c:121-133 | the divided rows are determined by the rows before |
| Normalize.NormalizedKeeps | src/external/isl/isl_map_simplify.c:103-160 | dividing rows by the common divisor keeps the row space and the reduced echelon form |
| BasicSets.BasicSet.NormalizeConstraints | src/external/isl/isl_map_simplify.c:103-160 | the set is marked empty exactly when some equality holds at no integer point (for a rational set at no point); otherwise what is left are the rows without zero rows, each divided until its coefficients have no common divisor but 1 and -1 |
| HullJoin.AffineHull | src/external/isl/isl_affine_hull.c:202-249 | the joined and normalized system: an exact intersection of row spaces whose rows can each be met and have no common divisor, or the empty set because of an equality that both inputs imply and no integer point meets |
| HullJoin.JoinedContains | src/external/isl/isl_affine_hull.c:202-249 | every integer point of either input satisfies the result |
| HullJoin.JoinIsAffineHull | src/external/isl/isl_affine_hull.c:197-249 | for inputs with solutions the result implies exactly the affine equalities that hold on all rational solutions of both |
| HullJoin.FoldedIsAffineHull | src/external/isl/isl_affine_hull.c:1235-1236 | folding any list of parts gives the equalities that hold on every part |
| HullJoin.HullOfParts | src/external/isl/isl_affine_hull.c:1209-1246 | the fold over the parts of a map, from the last one on: the precondition of the join holds at every step |
| Points.SpanIsHolds | src/external/isl/isl_affine_hull.c:202-249 | the row space of a solvable reduced system is the set of all equalities that hold on its solutions |
| Points.PointSpan | src/external/isl/isl_sample.c:1209-1241 | the system of a single point spans exactly the equalities that hold at the point |
| ExtendHull.OutsidePoint | src/external/isl/isl_affine_hull.c:266-341 | the point next to the sample along the normal is taken if it is in the set; otherwise the equality is shifted and negated in place, handed to the solver and restored; a point found is beyond it, and without one no point of the set is |
| ExtendHull.AdjacentPoint | src/external/isl/isl_affine_hull.c:346-352 | one coordinate moves by one |
| ExtendHull.TryPoint | src/external/isl/isl_affine_hull.c:378-392 | a point is added exactly if it is in the set and not in the hull, and the hull then implies just what it implied and what holds at the point |
| ExtendHull.TryNeighbours | src/external/isl/isl_affine_hull.c:372-397 | in each dimension the point below is added if it is new, and otherwise the one above if that is new |
| ExtendHull.AddAdjacentPoints | src/external/isl/isl_affine_hull.c:361-406 | the hull stays below the hull of the set, the sample is restored, and for every dimension a neighbour in the set is contained in the hull |
| ExtendHull.NewPointLosesRow | src/external/isl/isl_affine_hull.c:463-464 | joining a point that violates an equality leaves strictly fewer equalities |
| ExtendHull.TestEquality | src/external/isl/isl_affine_hull.c:438-454 | an equality is violated by the point found, above it if there is one above and else below, or holds on the whole set |
| ExtendHull.FindOutside | src/external/isl/isl_affine_hull.c:438-456 | the search over the equalities stops at the first violated one |
| ExtendHull.JoinFound | src/external/isl/isl_affine_hull.c:457-466 | each pass that joins a point lowers the number of equalities |
| ExtendHull.ExtendAffineHull | src/external/isl/isl_affine_hull.c:421-473 | as many passes as the set has dimensions suffice: on exit the equalities are exactly those that hold on every integer point of the set, whether the loop broke early or ran out |
| LatticeBasis.RunUndone | src/external/isl/basis_reduction_templ.c:215-237 | every run of row additions and exchanges can be undone step by step: the transformation is unimodular |
| LatticeBasis.SameLattice | src/external/isl/basis_reduction_templ.c:215-237 | a run of row operations keeps the lattice that the rows generate |
| Widths.WholeMultiplier | src/external/isl/basis_reduction_templ.c:182-186 | with a whole dual multiplier the width along a row equals the width of the combined row, and no other multiple does better |
| Widths.AroundMultiplier | src/external/isl/basis_reduction_templ.c:187-214 | of the two whole numbers around a fractional multiplier the better one is the best of all whole numbers |
| LpTableau.FlaggedDropped | src/external/isl/basis_reduction_tab.c:179-213 | a flag found along a row more is a flag of the same row without it: the test looks at one pair only |
| LpTableau.KeptNarrow | src/external/isl/basis_reduction_tab.c:193-205 | a row narrower than 1 is flagged and a flagged row is narrower than 2, also where the flag was kept from before a whole multiple was added |
| LpTableau.AnswerSolves | src/external/isl/basis_reduction_tab.c:282-287 | the dual values at the offset of the constraints added so far are the multipliers of the basis rows |
| LpTableau.CutKeepsPoints | src/external/isl/basis_reduction_tab.c:220-244 | cutting at the rounded-up least value loses no integer point if the row has at most one whole value |
| BasisReduction.Lp.AddRow | src/external/isl/basis_reduction_tab.c:268-280 | one row and its snapshot are pushed |
| BasisReduction.Lp.DelRow | src/external/isl/basis_reduction_tab.c:289-293 | the tableau goes back to the last snapshot |
| BasisReduction.Lp.CutTo | src/external/isl/basis_reduction_tab.c:220-244 | a plane at the rounded-up least value of the row is added, and two constraints are counted |
| BasisReduction.LayoutPop | src/external/isl/basis_reduction_templ.c:238-244 | whenever a row is popped the stack is not empty, the popped row is the basis row before i, and no plane goes with it |
| BasisReduction.NextWidth | src/external/isl/basis_reduction_templ.c:149-180 | in all three cases the width, flag and multiplier belong to the next row of the basis as it is, and the tableau is as before |
| BasisReduction.Combine | src/external/isl/basis_reduction_templ.c:182-216 | the whole multiple of row i that makes the next row as short as possible along the earlier rows; with a whole alpha the multiple is alpha and width and flag stay those found before it was added |
| BasisReduction.NoExchange | src/external/isl/basis_reduction_templ.c:228-237 | the exchange branch is never taken below n_zero: fixed rows have width zero |
| BasisReduction.CutRow | src/external/isl/basis_reduction_tab.c:220-244 | the cut row is constant on what is left, and no integer point is lost if the flag was found for this row or the width is below 1 |
| BasisReduction.FixNext | src/external/isl/basis_reduction_templ.c:218-226 | a fixed row behind fixed rows becomes fixed |
| BasisReduction.Compare | src/external/isl/basis_reduction_templ.c:228-263 | exchange and step back, exchange in place, or accept: all invariants are kept, the comparison of widths is the condition of a reduced basis, and the loop is left for a first row narrower than 2 exactly in the mode for it |
| BasisReduction.Round | src/external/isl/basis_reduction_templ.c:149-264 | one round keeps: the tableau holds exactly the rows from the entry n_zero to i, fixed rows are constant and never change again, F holds the widths, and the rows before i are reduced |
| BasisReduction.Start | src/external/isl/basis_reduction_templ.c:131-147 | the first row is fixed if its width is below 1, and only then |
| BasisReduction.ComputeReducedBasis | src/external/isl/basis_reduction_templ.c:49-264 | after any number of rounds the basis differs from the start by row operations between n_zero and n_bounded; on completion the fixed rows are constant and the others are reduced in the sense of Lovasz and Scarf with epsilon 1/4, the first of them has at least width 1 and was not flagged unless it is still the row at the start; in the mode for the first row only, no integer point is lost |
| BasisReduction.TransformedMeaning | src/external/isl/basis_reduction_templ.c:28-39 | the first entry-n_zero rows and the unbounded rows are untouched, the lattice is the same, and the start can be had back |
| LpTableau.FlagTransfers | src/external/isl/basis_reduction_templ.c:185-186 | for the pair at which the width was found, the flag of a row fits the row plus c times b exactly if its two heights moved by c times the height of b still have at most one whole value between them; always if that move is whole |
| BasisReduction.WedgeLosesPoint | src/external/isl/basis_reduction_templ.c:131-254 | on a triangle with normalized constraints and the unit basis, for every solver with optimal answers, the first round finds the width 5/4 and alpha 1 with the flag set, exchanges, and cuts away one of two integer points |
| BasisReduction.OnePoint | src/external/isl/basis_reduction_templ.c:49-130 | tableaus that meet everything asked of them exist for every basis |
| Preimage.SeqPreimage | src/external/isl/isl_aff.c:5944-6009 | the result row at y is a positive factor times the source row at the substituted point, the denominator gets the same factor, and it is the least factor that clears the denominators |
| Preimage.SubstituteVariable | src/external/isl/isl_aff.c:5973-6003 | one variable is substituted; the factor grows by the reduced denominator |
| Preimage.LeastNext | src/external/isl/isl_aff.c:5976-5984 | with the reduced denominator the factor stays the least that clears the denominators so far |
| Preimage.ReachedSkip | src/external/isl/isl_aff.c:5976-5977 | a variable with coefficient zero needs no substitution |
| Preimage.QuotientPreserved | src/external/isl/isl_aff.c:5944-6009 | with a denominator the quotient is exactly the value of the source expression |
| QuasiAffine.Split | src/external/isl/isl_aff.c:1764-1772 | quotients and balanced remainders of all coefficients |
| QuasiAffine.Floor | src/external/isl/isl_aff.c:1729-1788 | the value at every integer point is the floor, with at most one new division |
| QuasiAffine.Ceil | src/external/isl/isl_aff.c:1873-1895 | the value at every integer point is the ceiling |
| QuasiAffine.ModVal | src/external/isl/isl_aff.c:1796-1819 | the value is between 0 and m and a multiple of m away from the argument; NaN stays NaN, and moduli that are not positive are errors |
| QuasiAffine.Scale | src/external/isl/isl_aff.c:2039-2071 | the value is multiplied by f |
| QuasiAffine.ScaleDown | src/external/isl/isl_aff.c:2105-2138 | the value is divided by f |
| QuasiAffine.AddExpanded | src/external/isl/isl_aff.c:1929-1961 | the sum of two expressions over the same divisions |
| QuasiAffine.MultiplyBy | src/external/isl/isl_aff.c:3516-3552 | the product; NaN for a NaN factor, otherwise an error exactly when neither factor is a constant |
| QuasiAffine.DivideBy | src/external/isl/isl_aff.c:3559-3609 | the exact quotient; NaN for a zero divisor, an error for one that is not constant |
| AffSum.ArgsMerged | src/external/isl/isl_aff.c:2014-2018 | over the merged divisions both expressions see their own arguments |
| AffSum.AddAffs | src/external/isl/isl_aff.c:1976-2027 | the sum of expressions over different divisions; NaN for a NaN summand |
| Piecewise.IntersectDomain | src/external/isl/isl_pw_templ.c:949-960 | the value inside the region and nothing outside; cells stay disjoint |
| Piecewise.AddDisjoint | src/external/isl/isl_pw_add_disjoint_templ.c:49-93 | the union of two expressions that do not overlap |
| Piecewise.UnaryOp | src/external/isl/isl_pw_un_op_templ.c:35-72 | negation, floor and ceiling of the value at every point |
| Piecewise.OnSharedDomain | src/external/isl/isl_pw_templ.c:778-822 | the operation on the values of both arguments, defined where both are; cells stay disjoint; an error exactly when some pair with a shared cell that is not plainly empty cannot be computed |
| Piecewise.NonNegSet | src/external/isl/isl_aff.c:2995-3046 | exactly the points with a value that is not negative; NaN never counts |
| Piecewise.Complement | src/external/isl/isl_aff.c:5751-5752 | exactly the integer points outside the region |
| Piecewise.Cond | src/external/isl/isl_aff.c:3416-3479 | one value on the condition and the other value elsewhere |
| PiecewiseOpt.GteSet | src/external/isl/isl_aff.c:3126-3150 | where one value is at most the other, or for the strict form at least a whole 1 below it |
| PiecewiseOpt.Less | src/external/isl/isl_aff.c:3870-3882 | equality is allowed for the earlier position only |
| PiecewiseOpt.ReplaceListByNaN | src/external/isl/isl_aff.c:3848-3864 | NaN on the shared domain |
| PiecewiseOpt.ListOpt | src/external/isl/isl_aff.c:3909-3958 | pieces are added only where nothing was defined before, so they are disjoint; at each point the value is that of the one element that stands against all others |
| PiecewiseOpt.IntegerOptimum | src/external/isl/isl_aff.c:3884-3908 | for integer values the result is defined exactly on the intersection of the domains and is the minimum, first in the list, or the maximum, last in the list |
| PiecewiseOpt.RealOptimum | src/external/isl/isl_aff.c:3884-3908 | for any values it is defined exactly where the optimum keeps a whole 1 from the elements it may not equal |
| PiecewiseOpt.HalfAndZeroMissed | src/external/isl/isl_aff.c:3909-3958 | of 1/2 and 0 the minimum is lost |
| TruncatedDivision.TDivQ | src/external/isl/isl_aff.c:3656-3681 | the integer quotient rounded towards zero at every point; NaN for a zero divisor |
| TruncatedDivision.TDivR | src/external/isl/isl_aff.c:3692-3713 | the remainder, smaller than the divisor and zero or of the sign of the dividend |
| TruncatedDivision.TruncatedQuotientDivides | src/external/isl/isl_aff.c:3647-3655 | floor for a quotient that is not negative and ceiling otherwise rounds towards zero |
| TruncatedDivision.QuotientUniquelyTruncated | src/external/isl/isl_aff.c:3647-3655 | there is only one such quotient |
| GuaranteedAnalysis.HoldsUnfold | src/enzyme_ad/jax/Utils.h:698-712 | the greatest fixpoint satisfies the local rules |
| GuaranteedAnalysis.HoldsCoinduction | src/enzyme_ad/jax/Utils.h:639-645 | every set of values that support each other is in the greatest fixpoint |
| GuaranteedAnalysis.Analysis.CheckOperands | src/enzyme_ad/jax/Utils.h:716-743 | a cached failure decides, otherwise the list holds exactly the open operands |
| GuaranteedAnalysis.Analysis.LocalWithSetAttr | src/enzyme_ad/jax/Utils.h:698-712 | an answer agrees with the fixpoint, and a pending value comes with all its open operands |
| GuaranteedAnalysis.Analysis.SetInIR | src/enzyme_ad/jax/Utils.h:773-803 | only results of operations carry the attribute, and it agrees with the fixpoint |
| GuaranteedAnalysis.Analysis.Release | src/enzyme_ad/jax/Utils.h:612-618 | a proved value leaves every pending set, and exactly the emptied waiters are queued |
| GuaranteedAnalysis.Analysis.ProveFrom | src/enzyme_ad/jax/Utils.h:584-623 | everything cached as true is in the fixpoint; the pending map never lacks a waiter |
| GuaranteedAnalysis.Analysis.RefuteFrom | src/enzyme_ad/jax/Utils.h:558-581 | everything that waits for a failed value, directly or not, is cached as false and gets the attribute |
| GuaranteedAnalysis.RootReached | src/enzyme_ad/jax/Utils.h:558-581 | a failure anywhere in the query reaches the value that was asked for |
| GuaranteedAnalysis.QueryDone | src/enzyme_ad/jax/Utils.h:639-645 | when the queue runs empty all pending values are in the fixpoint |
| GuaranteedAnalysis.Analysis.MarkSeen | src/enzyme_ad/jax/Utils.h:639-645 | all pending values are cached as true |
| GuaranteedAnalysis.Analysis.Visit | src/enzyme_ad/jax/Utils.h:532-637 | one element of the queue is handled: the query invariant is kept, or the root fails |
| GuaranteedAnalysis.Analysis.IsGuaranteed | src/enzyme_ad/jax/Utils.h:510-654 | the answer is true exactly for members of the greatest fixpoint, on every run and for repeated queries; the loop ends, the last return is not reached without a cached answer, and the value asked for and all values that failed carry the attribute |
| SymmetricAnalysis.CheckConstantSymmetric | src/enzyme_ad/jax/Utils.cpp:554-589 | true exactly for constant matrices that equal their transpose |
| SymmetricAnalysis.AlwaysSound | src/enzyme_ad/jax/Utils.cpp:599-757 | the rules that fire unconditionally: splats, scalar broadcasts, commutative operations on A and its transpose, products of A and its transpose in every layout, rank-k updates that fill the whole result, scatters to the diagonal |
| SymmetricAnalysis.SyrkExact | src/enzyme_ad/jax/Utils.cpp:616-617 | the rule says yes to every rank-k update; with a symmetric C the result is symmetric exactly if the whole result is filled, or has at most one entry |
| SymmetricAnalysis.HalfFilled | src/enzyme_ad/jax/Dialect/EnzymeXLAOps.td:631-648 | a result of which one half is filled differs from its transpose under some assignment |
| SymmetricAnalysis.ScatterEntries | src/enzyme_ad/jax/Utils.cpp:1487-1530 | a scatter into a splat whose row k of the indices is (k, k) changes nothing off the diagonal |
| SymmetricAnalysis.SquareSound | src/enzyme_ad/jax/Utils.cpp:599-757 | the square of a symmetric matrix is symmetric |
| SymmetricAnalysis.ElementwiseSound | src/enzyme_ad/jax/Utils.cpp:599-757 | elementwise operations on symmetric matrices and scalars |
| SymmetricAnalysis.ConstantSound | src/enzyme_ad/jax/Utils.cpp:554-597 | a constant that passes is symmetric |
| SymmetricAnalysis.SplatOfAnyShape | src/enzyme_ad/jax/Utils.h:656-696 | a splat passes whatever its shape, so the answer means something for square matrices only |
| SymmetricAnalysis.HoldsSymmetric | src/enzyme_ad/jax/Utils.cpp:599-757 | every square matrix in the greatest fixpoint of these rules equals its transpose under every assignment |
| SymmetricAnalysis.GramAccepted | src/enzyme_ad/jax/Utils.cpp:661-705 | products of A and its transpose are accepted in every layout |
| SymmetricAnalysis.SquareAccepted | src/enzyme_ad/jax/Utils.cpp:677-689 | the product of A with itself is accepted exactly if A is |
| SymmetricAnalysis.OtherProduct | src/enzyme_ad/jax/Utils.cpp:661-705 | no other product is accepted |
| SymmetricAnalysis.PairAccepted | src/enzyme_ad/jax/Utils.cpp:634-659 | a commutative operation on A and its transpose is accepted either way round |
| SymmetricAnalysis.ElementwiseAccepted | src/enzyme_ad/jax/Utils.cpp:722-756 | any other elementwise operation is accepted exactly if all its operands are |
| SymmetricAnalysis.ScatterAccepted | src/enzyme_ad/jax/Utils.cpp:707-718 | a scatter is accepted exactly if its input is a splat and its indices are the diagonal, row by row |
| SymmetricAnalysis.ConstantAccepted | src/enzyme_ad/jax/Utils.cpp:554-597 | a constant square matrix is accepted exactly if it equals its transpose |
| SymmetricAnalysis.AlwaysAccepted | src/enzyme_ad/jax/Utils.cpp:616-632 | scalar broadcasts and rank-k updates are accepted |
| SymmetricAnalysis.NotAccepted | src/enzyme_ad/jax/Utils.cpp:599-614 | arguments, transposes and unknown operations are not accepted, nor is anything but a constant that is not a square matrix |
| SymmetricAnalysis.IsSymmetric | src/enzyme_ad/jax/Utils.h:933-945 | the work-list analysis answers exactly what the rules accept, and what it accepts of a square matrix can be relied on |
| RowMajor.ComputeStrides | src/enzyme_ad/jax/Utils.h:1070-1078 | each stride is the product of the later extents |
| RowMajor.LinearToMultiIndex | src/enzyme_ad/jax/Utils.h:1081-1089 | the multi-dimensional index of a position |
| RowMajor.MultiToLinearIndex | src/enzyme_ad/jax/Utils.h:1092-1099 | the position of a multi-dimensional index |
| RowMajor.MultiThenLinear | src/enzyme_ad/jax/Utils.h:1081-1099 | every position has an index in bounds that leads back to it |
| RowMajor.LinearThenMulti | src/enzyme_ad/jax/Utils.h:1081-1099 | every index in bounds has a position below the element count that leads back to it |
| PaddedTensor.DetectPaddingWithValue | src/enzyme_ad/jax/Utils.cpp:2032-2082 | the low and high amounts are those of the smallest box around all other values |
| PaddedTensor.CollectInner | src/enzyme_ad/jax/Utils.cpp:2132-2146 | each inner element is the element of the tensor at its shifted index |
| PaddedTensor.BoundingBoxUnique | src/enzyme_ad/jax/Utils.cpp:2032-2082 | there is only one smallest box |
| PaddedTensor.DetectPaddedTensor | src/enzyme_ad/jax/Utils.cpp:2018-2158 | padding the inner tensor rebuilds the constant at every index, the inner tensor is not empty and has less than half of the elements; no result exactly when neither the first nor the last value allows it |
| Collapsing.NextGroup | src/enzyme_ad/jax/Utils.cpp:1303-1322 | one greedy group, or the proof that there is none |
| Collapsing.GetCollapsingMapping | src/enzyme_ad/jax/Utils.cpp:1288-1335 | true exactly when consecutive greedy groups with the new dimensions as products cover the old shape, and the mapping is such a partition |
| Collapsing.GreedyExactly | src/enzyme_ad/jax/Utils.cpp:1288-1335 | for dimensions that are not negative a greedy collapse exists exactly when there is a collapse in which every group for size zero is its zero alone, ones after the last group aside, with as many ones directly before it as before its target |
| Collapsing.GreedySuffices | src/enzyme_ad/jax/Utils.cpp:1288-1335 | for positive dimensions any split into consecutive groups can be replaced by the greedy one |
| Collapsing.ZeroExtentMissed | src/enzyme_ad/jax/Utils.cpp:1303-1322 | with a zero extent a split is missed |
| ReshapeLike.LinearKept | src/enzyme_ad/jax/Utils.cpp:2820-2857 | dimensions of size one do not count for the row-major position |
| ReshapeLike.TransposeIsReshapeLike | src/enzyme_ad/jax/Utils.cpp:2847-2857 | accepted exactly when the dimensions that are not of size one keep their order |
| ReshapeLike.ReshapeLikeExactly | src/enzyme_ad/jax/Utils.cpp:2847-2857 | the transposes accepted are exactly those that leave the row-major data unchanged |
| ReshapeLike.BroadcastIsReshapeLike | src/enzyme_ad/jax/Utils.cpp:2820-2845 | accepted exactly for equal element counts and ordered dimensions |
| ReshapeLike.BroadcastKeepsData | src/enzyme_ad/jax/Utils.cpp:2820-2845 | an accepted broadcast reads every element at its old position |
| ReshapeLike.BroadcastExactly | src/enzyme_ad/jax/Utils.cpp:2820-2845 | the broadcasts accepted are exactly those that read all data in its old order |
| ReshapeLike.ReshapeIsTranspose | src/enzyme_ad/jax/Utils.cpp:2529-2579 | accepted exactly for the same rank and the same sizes other than one in the same order |
| ReshapeLike.ReshapeMovesUnits | src/enzyme_ad/jax/Utils.cpp:2529-2579 | an accepted reshape moves only dimensions of size one |
| AxisFold.GetInversePermutation | src/enzyme_ad/jax/Utils.cpp:3717-3723 | the inverse of a permutation |
| AxisFold.ReshapeAxisInto | src/enzyme_ad/jax/Utils.cpp:2581-2607 | each element is found at the row-major batch index times the old size plus the old coordinate |
| AxisFold.ReshapeAxisOutOf | src/enzyme_ad/jax/Utils.cpp:2609-2634 | the batch dimensions come first and folding the result gives the argument |
| AxisFold.FoldPermutations | src/enzyme_ad/jax/Utils.cpp:2586-2592 | the two permutations are inverse to each other |
| AxisFold.OutOfInto | src/enzyme_ad/jax/Utils.cpp:2581-2634 | taking out what was folded in gives the tensor back |
| AxisFold.IntoOutOf | src/enzyme_ad/jax/Utils.cpp:2581-2634 | folding in what was taken out gives the tensor back |
| ConcatSlices.CanMergeSlicesAlongAxis | src/enzyme_ad/jax/Utils.cpp:2859-2878 | true exactly for slices that continue each other along the axis and agree elsewhere |
| ConcatSlices.MergeKeeps | src/enzyme_ad/jax/Utils.cpp:3413-3436 | a slice that ends on a whole step and its continuation are the merged slice |
| ConcatSlices.MergeExact | src/enzyme_ad/jax/Utils.cpp:2859-2878 | merging two slices of a tensor keeps every element exactly when the first ends on a whole step or the second is empty |
| ConcatSlices.UnitMergeComplete | src/enzyme_ad/jax/Utils.cpp:2859-2878 | slices of a leaf without strides pass the test exactly if some slice without strides is their concatenation |
| ConcatSlices.LowerWrapKeeps | src/enzyme_ad/jax/Utils.cpp:2899-2951 | a wrap is the concatenation it is lowered to |
| ConcatSlices.WrapsAlong | src/enzyme_ad/jax/Utils.cpp:3442-3466 | a wrap along another dimension never passes the test, because it would make that dimension longer than the operands allow |
| ConcatSlices.JoinWrap | src/enzyme_ad/jax/Utils.cpp:3442-3474 | extending the slice by the left part of a wrap and keeping the other parts changes nothing |
| ConcatSlices.WrapExact | src/enzyme_ad/jax/Utils.cpp:3442-3474 | for slices of a leaf it changes nothing exactly when the slice ends on a whole step and the wrapped slice has stride 1 or is wrapped as a whole |
| ConcatSlices.StridedWrap | src/enzyme_ad/jax/Utils.cpp:3451-3453 | a wrap of a slice with stride 2 that passes the test and gives three elements for two |
| ConcatSlices.ConcatSliceSimplify | src/enzyme_ad/jax/Utils.cpp:3413-3485 | for any list length and rank the new list is made of one merged slice for each maximal run of neighbours that pass the test, with the other parts of a wrap that ends the run; it concatenates to the same tensor where the neighbours that are merged meet the exact condition |
| ConcatSlices.SimplifiedLength | src/enzyme_ad/jax/Utils.cpp:3413-3485 | each joined slice makes the list one operand shorter and each joined wrap with a right part one longer |
| MovedAxis.FindReshapeInsertionDims | src/enzyme_ad/jax/Utils.cpp:1200-1228 | the list is not empty exactly when the output has dimensions of size one inserted, and deleting the listed dimensions gives the input |
| MovedAxis.AxisPermutation | src/enzyme_ad/jax/Utils.cpp:3374-3390 | the inverse of the mapping moves the sliced dimension to the concatenated one and keeps the order of the others |
| ConcatReshapes.FindSliceDim | src/enzyme_ad/jax/Utils.cpp:3271-3290 | the only dimension of extent one that is not all of the source, if there is exactly one |
| ConcatReshapes.Classify | src/enzyme_ad/jax/Utils.cpp:3256-3335 | accepted exactly when the operand is a reshape of a slice along one dimension with the other dimensions equal up to inserted or deleted ones, and the place of the concatenation exists in the rank of the slice |
| ConcatReshapes.ReplacementKeeps | src/enzyme_ad/jax/Utils.cpp:3373-3406 | the transposed larger slice, its data under the new shape, is the same tensor as the group |
| ConcatReshapes.ConcatReshapeSliceSimplify | src/enzyme_ad/jax/Utils.cpp:3238-3411 | for any list length and rank the new list has one operand for each maximal run of linked operands, the slice from the first start to the last limit with its axis moved; it concatenates to the same tensor where the operands that are merged meet the exact condition |
| ConcatReshapes.SimplifiedLength | src/enzyme_ad/jax/Utils.cpp:3339-3371 | each link makes the list one operand shorter |
| ConcatReshapes.RowsMerge | src/enzyme_ad/jax/Utils.cpp:3271-3371 | elements that follow each other along any dimension are merged, under any reshape that keeps the other dimensions up to ones |
| ConcatReshapes.GroupExact | src/enzyme_ad/jax/Utils.cpp:3337-3406 | a merged group of slices of a leaf is the same tensor exactly when each slice but the last ends on a whole step and as many dimensions other than one stand before the axis in both shapes |
| ConcatReshapes.InsertedBefore | src/enzyme_ad/jax/Utils.cpp:3296-3325 | an inserted dimension of size one before the axis: one element of the result is another element of the source |
| ConcatReshapes.StridedGroup | src/enzyme_ad/jax/Utils.cpp:3353-3361 | slices 0:1:2 and 1:2:2 pass the test and become one element |
| ConcatReshapes.EmptyGroup | src/enzyme_ad/jax/Utils.cpp:3392-3405 | empty slices that a reshape makes longer pass the test and lose their length |
| ConcatElems.ReshapeIsUnsqueeze | src/enzyme_ad/jax/Utils.cpp:2953-2977 | accepted exactly when every input dimension is found in order by the search |
| ConcatElems.MatchSubsequence | src/enzyme_ad/jax/Utils.cpp:2960-2974 | for inputs without sizes of one the search accepts exactly the insertions of dimensions |
| ConcatElems.OneMatched | src/enzyme_ad/jax/Utils.cpp:2964-2974 | a size of one in the input is accepted only as its last dimension, and only for a one at the end of the output |
| ConcatElems.UnsqueezeElement | src/enzyme_ad/jax/Utils.cpp:2953-2977 | an accepted reshape reads its source at the matched coordinates: the other dimensions have size one |
| ConcatElems.GetSliceDim | src/enzyme_ad/jax/Utils.cpp:2979-2994 | the only dimension that is not taken whole |
| ConcatElems.PartialExactly | src/enzyme_ad/jax/Utils.cpp:2983-2985 | a dimension counts as sliced exactly if its size changes or its stride is not 1 |
| ConcatElems.ReachesLayers | src/enzyme_ad/jax/Utils.cpp:3023-3081 | broadcasts and unsqueezing reshapes on top do not hide a slice |
| ConcatElems.StepThrough | src/enzyme_ad/jax/Utils.cpp:3023-3081 | through a broadcast or an unsqueezing reshape the window stays the same with its dimension and the permutation mapped |
| ConcatElems.StepSlice | src/enzyme_ad/jax/Utils.cpp:3086-3112 | two slices of one dimension compose to one |
| ConcatElems.FindConcatSlicedElem | src/enzyme_ad/jax/Utils.cpp:3005-3120 | for chains of any depth the operand is the broadcast, along the permutation, of one window of the source, and the chain goes no further for the dimension of the window; a result exactly when a slice of one dimension is reached |
| ConcatElems.RepeatExact | src/enzyme_ad/jax/Utils.cpp:3026-3046 | a window found above a broadcast that repeats its dimension is right exactly if it is the first element alone |
| ConcatMerges.MergeConcatSlicedElems | src/enzyme_ad/jax/Utils.cpp:3122-3190 | one slice over both windows, broadcast like the larger one; a result exactly when both have the same source and stride 1, the second window begins where the first ends, and not both have one element |
| ConcatMerges.AdjoiningFuse | src/enzyme_ad/jax/Utils.cpp:3136-3144 | adjoining windows that are not empty are merged exactly if they have more than two elements together |
| ConcatMerges.FusedExact | src/enzyme_ad/jax/Utils.cpp:3122-3190 | for windows of one dimension along one permutation the new operand is the same tensor exactly when that dimension goes to the concatenated one and no broadcast repeats a dimension |
| ConcatMerges.RowsSideBySide | src/enzyme_ad/jax/Utils.cpp:3122-3190 | rows 0..2 and 2..4 side by side are merged to rows 0..4 |

## Left out

- BasisReduction.ComputeReducedBasis: stops after a given number of rounds, because termination for every answer of the solver is not modelled; everything is stated for every number of rounds. The error exits of the solver are not modelled.
- BasisReduction.Combine: the record that a flag was found for the row itself is kept beside the code; a cut without it is not claimed to keep the integer points.
- BasisReduction.Lp.Solve: the simplex method is a function of the query number, the tableau and the row; its answers are required to be optimal with a dual, and widths to be attained. GBR_lp_set_obj and the numerator and denominator fields become the returned answer.
- ConcatSlices.ConcatSliceSimplify: asks that the neighbours that are merged meet the condition of ConcatSlices.WrapExact, because the code merges wrongly otherwise. Operands are the same when their expressions are.
- Collapsing.GreedyExactly: dimensions of unknown size (negative markers) are not modelled.
- PaddedTensor.DetectPaddedTensor: for constants with two different values, as the caller makes sure.
- SymmetricAnalysis.HoldsSymmetric: for square matrices with integer entries over an acyclic graph; asks that every rank-k update fills its whole result and has a symmetric C, because it is false otherwise. Broadcasts of anything but a scalar count as giving no answer, index constants of scatters are given as lists, and attributes already in the program are taken at their word.
- GuaranteedAnalysis.Analysis.IsGuaranteed: the values reachable from the query are finite; floating point constants are parameters.
- QuasiAffine.Floor: isl_aff_normalize and the merging of equal divisions are not modelled; a new division is appended.
- AffSum.AddAffs: divisions of both summands are kept side by side where isl_merge_divs would share equal ones.
- Piecewise.OnSharedDomain: the test for plainly empty cells is a parameter that may miss empty cells, and the simplification of values on a cell is not modelled.
- BasicSets.BasicSet.NormalizeConstraints: the loop over the inequalities is not modelled; the rest of the set is untouched by the equalities.
- Piecewise.AddDisjoint: the pieces are appended in the given order, also where the code swaps its arguments.
- HullJoin.AffineHull: isl_basic_map_gauss and the inequalities of the sets are not modelled; inputs are in reduced echelon form, as the code takes for granted.
- ExtendHull.ExtendAffineHull: recording of samples in the tableau is not modelled; the tableau is a solver for integer points of a set.
- Reference counting, copy-on-write, null results and parameter alignment of isl, and floating point throughout.
- ConcatReshapes.ConcatReshapeSliceSimplify: asks that the operands that are merged meet the condition of ConcatReshapes.GroupExact and that the other dimensions are not zero, because the code merges wrongly otherwise.
- ConcatElems.FindConcatSlicedElem: asks that no broadcast below a slice repeats the sliced dimension, unless only its first element is taken, because the result is wrong otherwise.
- ConcatMerges.FusedExact: for two windows of one dimension along one permutation with no empty operand. The scan of concatBroadcastSliceSimplify over the operands is not modelled.
- Detection of iota constants and isl_multi_aff_lex_gte_set: further clients of the same index laws.
- The rule tables for NaN-free, finite and non-negative results, effect and alias queries, code generation, the JIT and all registration code.
