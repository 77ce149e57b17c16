# arbtkf91 core in Dafny

arbtkf91 aligns two DNA sequences under the TKF91 evolutionary model,
computing optimal pairwise alignments with certified arbitrary-precision
arithmetic. This project models its integer and bookkeeping core.

- **The tableau of flags.** Each cell of the dynamic-programming tableau is
  one byte of flags (`dp_mat_t`, and the older `breadcrumb_mat_t`). The
  model covers:
  - the traceback that prints an alignment;
  - the backward "generalized traceback" sweep that marks the cells lying on
    optimal paths;
  - the checker that judges an alignment optimal and canonical;
  - the row-major visitor with its two-row buffer;
  - the two counters of optimal alignments.
- **Exact bookkeeping:**
  - the coprime factor refinement of Bach, Driscoll and Shallit;
  - the generator registry (an open/add/close state machine);
  - the expression registry, with its aliasing of equal frequencies;
  - the precision-level evaluation cache of an expression, with the
    tenacious comparison built on it.
- **Small transformations:**
  - the derived rational parameters;
  - the nucleotide encoder;
  - gap stripping in the alignment checker executable;
  - the index arithmetic of the anti-diagonal wavefront matrix.

## Modelling conventions

- **Aborts.** A C routine that can call `abort()` returns a `Result` or
  `Status` value. The abort carries the source's message, and the
  condition under which it happens is part of the contract.
- **Flag tableaux.** A tableau is a class over an `array<bv8>`. Contracts
  speak of `data[..]` through the specification functions `Trail` (the
  traceback), `BackCell` (the backward sweep), `Check` (the checker) and
  `Sweep` (the visitor).
- **One traceback specification.** The `src/dp.c` traceback and the
  `breadcrumbs.c` traceback share `Trail`. `Trail` is parameterised by the
  three direction bits each of them tests.
- **Linked lists become sequences.**
  - In factor refinement, a list of `(m, e)` nodes is a `seq<Node>` and its
    number is the product of `m^e`.
  - In the expression registry, the list becomes a `seq` field of nodes.
- **Arithmetic-ball values.** Arb balls, fmpz and fmpq values are
  abstract or exact:
  - fmpq rationals are `real` (exact on `+ - * /`);
  - fmpz counts are `int` or `nat`;
  - an arb ball is a type parameter `V`;
  - ball comparison (`arb_overlaps`, `arb_gt`) is passed in as functions.

## Model

| member | source | states |
|---|---|---|
| DpFlags.FlagsFillOneByte | src/dp.h:39-46 | the eight flags are the single bits 1<<0 .. 1<<7, pairwise disjoint, together 0xFF |
| DpFlags.M0Interesting | src/dp.h:69-73 | m0 is of interest iff MAX3 and MAX3_M0 are both set |
| DpFlags.M1Interesting | src/dp.h:75-80 | m1 is of interest iff (MAX3 and MAX3_M1) or (MAX2 and MAX2_M1) |
| DpFlags.M2Interesting | src/dp.h:82-87 | m2 is of interest iff (MAX3 and MAX3_M2) or (MAX2 and MAX2_M2) |
| DpFlags.EntryFormula | src/dp.h:103-107 | the row-major position of (i, j) is i*ncols + j (see also breadcrumbs.c, lines 22-35) |
| DpFlags.EntryInBounds | src/dp.h:103-107 | an in-range (i, j) lies inside the nrows*ncols bytes |
| DpFlags.EntryInjective | src/dp.h:103-107 | two in-range cells with the same position are the same cell |
| DpFlags.EntryOnto | src/dp.h:103-107 | every byte of the data is the entry of exactly the cell (t / ncols, t % ncols) |
| DpMatrix.DpMat.Init | src/dp.c:10-27 | a fresh nrows x ncols tableau whose every byte is 0xFF |
| DpMatrix.DpMat.Set | src/dp.c:168-183 | aborts iff the dimensions differ, leaving the data; otherwise the data becomes a copy of every byte of src |
| DpMatrix.DpMat.GetAlignment | src/dp.c:36-87 | aborts exactly when the traceback `Trail` over M0/M1/M2 does, with its reason; otherwise returns the number of steps, which is at most nrows + ncols - 2, and sa/sb hold the two rows in forward order (the reversed rows the walk wrote) |
| DpMatrix.DpMat.CheckAlignment | src/dp.c:186-265 | the verdict is `Check` of the data: the column-by-column judgement from the bottom-right cell |
| DpMatrix.DpMat.Backward | src/dp.c:91-164 | every cell of the data ends as `BackCell` of the old data |
| DpMatrix.DpMat.ClearFlags | src/dp.c:101-109 | every cell loses MAX3, TRACE and MAX2 and keeps its other bits |
| DpMatrix.DpMat.SweepRow | src/dp.c:113-162 | one row of the reverse row-major sweep makes that row final |
| DpMatrix.DpMat.SweepCell | src/dp.c:115-161 | one cell of the sweep gets its final byte and nothing else changes |
| DpMatrix.SweepReads | src/dp.c:115-161 | a sweep step reads its own cleared byte and the final bytes of its right, lower-right and lower neighbours |
| DpMatrix.FlatStep | src/dp.c:119-161 | the position of a neighbour is the cell's position minus 1, ncols or ncols + 1 (see also src/dp.h, lines 103-107) |
| DpBackward.BackKeepsCompetitors | src/dp.c:101-112 | the sweep changes only MAX3, TRACE and MAX2 in any cell |
| DpBackward.BackCorner | src/dp.c:110-112 | the bottom-right cell keeps its competitor bits and gets MAX3 and TRACE |
| DpBackward.BackTrace | src/dp.c:115-161 | a cell has TRACE iff it is the corner, or the right neighbour has TRACE and MAX3_M2, or the lower-right has TRACE and MAX3_M1, or the lower one has TRACE and MAX3_M0 |
| DpBackward.TraceStep | src/dp.c:115-161 | after the sweep, one traceback step from a TRACE cell lands on a TRACE cell (see also src/dp.c, lines 49-77) |
| DpBackward.TracebackStaysOnTrace | src/dp.c:115-161 | after the sweep, the traceback from any TRACE cell visits only TRACE cells (see also src/dp.c, lines 49-77) |
| DpBackward.SweptTracebackOnTrace | src/dp.c:91-164 | after dp_mat_backward, the traceback from the bottom-right cell stays on TRACE cells (see also src/dp.c, lines 49-77) |
| Traceback.Choose | src/dp.c:52-76 | the step is the first direction in the order top, diag, left whose bit is set, and None iff no bit is set (see also breadcrumbs.c, lines 53-78) |
| Traceback.Count | src/dp.c:52-70 | the number of letters of one sequence that the steps consume is at most the number of steps |
| Traceback.CountCovers | src/dp.c:52-70 | every step consumes a letter of at least one of the sequences |
| Traceback.Trail | src/dp.c:46-78 | a successful traceback from (i, j) consumes exactly i letters of A and j of B (see also breadcrumbs.c, lines 48-79) |
| Traceback.TrailLength | src/dp.c:49-77 | a successful traceback from (i, j) has between max(i, j) and i + j steps |
| Traceback.TrailFirstStep | src/dp.c:49-77 | a successful traceback starts with the step the cell chooses, which stays in the grid, and continues from where that step leads |
| Traceback.Row | src/dp.c:52-70 | a row buffer gets one character per step |
| Traceback.RowGaps | src/dp.c:52-70 | a row character is '-' exactly where its step takes no letter of that sequence; every other character is the letter of a base |
| Traceback.DropGapsReverse | src/dp.c:79-86 | removing gaps commutes with the in-place reversal |
| Traceback.AlignedRowSpellsSequence | src/dp.c:52-86 | dropping '-' from the forward-order row gives the sequence back, letter for letter |
| Traceback.NoGapColumn | src/dp.c:52-70 | no column of a traceback is a gap in both rows |
| Traceback.WalkBack | src/dp.c:43-78 | the loop aborts exactly when `Trail` does, with its reason; otherwise it has written the rows back to front, as many characters as the traceback has steps, leaving the rest of each buffer as it was |
| Traceback.ReverseBoth | src/dp.c:79-86 | the first len characters of both buffers are reversed in place and the rest are untouched (see also breadcrumbs.c, lines 81-87) |
| Traceback.RunTraceback | src/dp.c:36-87 | the walk then the reversal: the length is the number of steps and sa[..len], sb[..len] are the rows in forward order |
| DpCheck.Observe | src/dp.c:201-218 | a column's direction takes a letter of A iff A's entry is not a gap (likewise B); for code entries it is None exactly for the all-gap column |
| DpCheck.Check | src/dp.c:186-265 | a canonical verdict is also optimal |
| DpCheck.CheckVerdict | src/dp.c:240-248 | the canonical flag can only be lost, and a canonical result is optimal |
| DpCheck.CheckFollowsTrail | src/dp.c:221-248 | columns that read back as the traceback's steps pass the check and leave canonical as it was (see also src/dp.c, lines 52-70) |
| DpCheck.CheckCanonicalIsTrail | src/dp.c:221-248 | conversely, a verdict that is both optimal and canonical means the columns are exactly the traceback's steps |
| DpCheck.TrailPasses | src/dp.c:186-265 | an alignment whose columns, read backwards, are the traceback is judged optimal and canonical |
| DpCheck.ObserveColumns | src/dp.c:201-218 | rows whose gaps sit where the steps leave them read, column by column backwards, as those steps |
| DpCheck.EncodedRow | src/dp.c:79-86 | a printed traceback row reads back as codes whose gaps are where its steps put them (see also jsonutil.c, lines 7-49) |
| DpCheck.TracebackIsCanonical | src/dp.c:186-265 | the alignment dp_mat_get_alignment prints, read back as codes, is judged both optimal and canonical on the same tableau (see also src/dp.c, lines 36-87) |
| DpCheck.CornerEntry | src/dp.c:191-220 | the bottom-right cell is the last byte of the data |
| Forward.Look | src/forward.c:43-55 | the visit sees the cell's own slot; top exists iff i > 0, diag iff i > 0 and j > 0, left iff j > 0 |
| Forward.LookIs | src/forward.c:43-65 | top and diag come from the other half of the buffer (the previous row), left and curr from this row's half |
| Forward.SweepStops | src/forward.c:38-69 | once a visit returns nonzero, nothing more is visited and that result is returned |
| Forward.SweepCell | src/forward.c:38-61 | a cell without MAX2 or MAX3 is skipped; otherwise the visit's data is stored in the cell's slot |
| Forward.SweepRowEnd | src/forward.c:38-65 | the end of a row swaps the roles of the two halves of the buffer |
| Forward.VisitRow | src/forward.c:38-62 | one row of visits is the row-major sweep specification over that row |
| Forward.DpForward | src/forward.c:6-70 | the user data and result are those of the row-major sweep over active cells with the two-row buffer |
| DpCount.CellCount | src/count_solutions.c:36-57 | a cell without TRACE counts 0 |
| DpCount.CountVisit | src/count_solutions.c:32-70 | _visit writes the cell count, copies it to the result only at the bottom-right cell, and never stops the iteration |
| DpCount.CellCountIsPaths | src/count_solutions.c:38-56 | with the neighbours' slots up to date, a visit writes the number of TRACE paths from (0, 0) to the cell |
| DpCount.CountFrom | src/count_solutions.c:32-70 | the visitor sweep from any point produces the expected result (see also src/forward.c, lines 38-69) |
| DpCount.CountSolutions | src/count_solutions.c:74-85 | when no cell reads a slot left over from an unvisited cell, the result is the number of TRACE paths to the corner (or the initial value when the corner is not visited) |
| TracePaths.PathsCount | src/count_solutions.c:38-56 | the cell-by-cell recurrence equals the number of listed paths (see also count_solutions.c, lines 81-101) |
| TracePaths.PathsSound | src/count_solutions.c:38-56 | every listed path is a monotone path of marked cells to (0, 0) using allowed directions |
| TracePaths.PathsComplete | src/count_solutions.c:38-56 | every such path is listed |
| TracePaths.PathsDistinct | src/count_solutions.c:38-56 | no path is listed twice |
| Breadcrumbs.Zeroed | breadcrumbs.c:44-46 | a calloc'd buffer of n NUL characters |
| Breadcrumbs.CrumbTraceback | breadcrumbs.c:44-89 | the traceback over the tableau's cells into two calloc'd buffers of nrows + ncols characters: the reversed alignment rows, the same abort reasons as the walk, and NUL in every character past the alignment |
| Breadcrumbs.CrumbMat.Init | breadcrumbs.c:8-14 | a fresh nrows x ncols tableau whose every crumb is 0 |
| Breadcrumbs.CrumbMat.GetAlignment | breadcrumbs.c:38-90 | buffers of nrows + ncols characters; aborts exactly when the TOP/DIAG/LEFT traceback does; otherwise the length is below nrows + ncols, the rows are in forward order, and the tail is NUL |
| CrumbCount.RowNnz | count_solutions.c:28-35 | the number of contenders among n cells is at most n |
| CrumbCount.MaxNnz | count_solutions.c:20-42 | an upper bound on every row's contender count that some row attains |
| CrumbCount.MaxRowNnz | count_solutions.c:20-42 | the result is MaxNnz of the tableau |
| CrumbCount.Half | count_solutions.c:73-99 | C's (i%2)*n is 0 on even rows and n on odd rows, and row i - 1 uses the other half |
| CrumbCount.ReadCount | count_solutions.c:87-100 | a reference gives the neighbour's path count, or None (NULL) for a non-contender |
| CrumbCount.StepSum | count_solutions.c:81-101 | a contender reads no NULL count iff each allowed step has a count, and then its path count is their sum (+1 at (0, 0)) |
| CrumbCount.CountCell | count_solutions.c:68-101 | aborts iff the cell reads a NULL count; otherwise a contender gets its path count in the next packed slot, and every cell gets its reference |
| CrumbCount.CountRow | count_solutions.c:65-103 | a row completes iff none of its cells reads a NULL count, and then all its references are right |
| CrumbCount.Count | count_solutions.c:46-119 | the result is CrumbTotal over the first cols columns: the corner's path count, or the abort for a NULL read or an empty corner |
| CrumbCount.CountAsWritten | count_solutions.c:46-119 | as written (column bound nrows, line 57): with nrows <= ncols the result is CrumbTotal over the first nrows columns, so a count is the number of distinct contender paths to cell (nrows - 1, nrows - 1); with nrows > ncols the run reads past the matrix data and yields the abort PastMatrix |
| CrumbCount.CountSolutions | count_solutions.c:46-119 | with the bound ncols, the result is the number of distinct contender paths to the bottom-right cell |
| CrumbCount.ColumnBoundFinding | count_solutions.c:56-57 | on a 2 x 3 tableau with two paths, the as-written count is 1 and the corrected one is 2 |
| FactorRefinement.Gcd | factor_refinement.c:228 | the gcd of two numbers, not both zero, is positive |
| FactorRefinement.GcdDivides | factor_refinement.c:228-230 | the gcd divides both numbers exactly |
| FactorRefinement.SplitProduct | factor_refinement.c:228-239 | a gcd split keeps the product of m^e and divides the product of the bases by d |
| FactorRefinement.SplitStep | factor_refinement.c:226-243 | a split of two neighbours other than 1 keeps the product and the positivity, and lowers the product of bases or the count of adjacent non-1 pairs |
| FactorRefinement.RefinePass | factor_refinement.c:220-249 | one pass keeps the product; a boring pass changes nothing and leaves no two adjacent non-1 nodes; any other pass makes progress; every old base is a product of powers of the new ones; bases two or more apart stay coprime, the head keeps dividing m1 and the rest m2 |
| FactorRefinement.PassSplit | factor_refinement.c:226-243 | one split inside a pass keeps the pass state (product, refinement, far coprimality, origins) and makes progress |
| FactorRefinement.SplitFarCoprime | factor_refinement.c:226-243 | a gcd split keeps every two bases at least two places apart coprime; the two outer quotients x/d and y/d are coprime |
| FactorRefinement.QuotientsCoprime | factor_refinement.c:228-239 | x / gcd(x, y) and y / gcd(x, y) are coprime |
| FactorRefinement.GcdGreatest | factor_refinement.c:228 | every common divisor of two numbers divides their gcd |
| FactorRefinement.CoprimeDivisors | factor_refinement.c:228-239 | divisors of coprime numbers are coprime |
| FactorRefinement.SplitOrigins | factor_refinement.c:226-243 | after a split the head still divides m1 and every later base divides m2 |
| FactorRefinement.SplitRefines | factor_refinement.c:226-243 | each of the two split bases is the product of its quotient and the gcd, so the old list is a product of powers of the new one |
| FactorRefinement.ReducedCoprime | factor_refinement.c:217-250 | once no two neighbours are both other than 1, far coprimality gives pairwise coprimality |
| FactorRefinement.NonOnesCoprime | factor_refinement.c:257-299 | dropping the 1 nodes keeps the bases pairwise coprime |
| FactorRefinement.NonOnesRefines | factor_refinement.c:257-299 | dropping the 1 nodes keeps every base a product of powers of what is kept |
| FactorRefinement.GenTrans | factor_refinement.c:311-364 | a product of powers of bases that are products of powers of l' is one of l' |
| FactorRefinement.PairRefineUnreduced | factor_refinement.c:193-254 | (1, 1) gives the empty list; otherwise the product m1^e1 * m2^e2 is kept and no two adjacent nodes are both other than 1; the bases are pairwise coprime and m1 and m2 are products of powers of them; the head divides m1 and every later base divides m2 |
| FactorRefinement.NonOnesProduct | factor_refinement.c:256-299 | dropping the 1 nodes keeps the product |
| FactorRefinement.NonOnesMembers | factor_refinement.c:271-294 | what is kept is exactly the nodes other than 1 |
| FactorRefinement.RemoveOnes | factor_refinement.c:257-299 | an empty list gives empty; a list of only 1s writes through NULL (the abort); otherwise the non-1 nodes in order |
| FactorRefinement.PairRefine | factor_refinement.c:302-308 | the product m1^e1 * m2^e2 is kept, with no 1 nodes and a non-empty result unless both inputs are 1; the bases are pairwise coprime, m1 and m2 are products of powers of them, the head divides m1 or m2 and every later base divides m2 |
| FactorRefinement.PopFront | factor_refinement.c:113-136 | the list without its head; the empty list stays empty |
| FactorRefinement.AugmentLoop | factor_refinement.c:320-348 | the loop keeps (L_{j+1}, (m, e), rest of L_j) standing for m_{j+1} times L_j, generating m_{j+1} and every base of L_j, and, when L_j is pairwise coprime, L_{j+1} pairwise coprime and coprime with m and with the rest of L_j; it ends with m = 1 or L_j empty |
| FactorRefinement.AugmentCoprimeStep | factor_refinement.c:328-348 | replacing (m, e) and the head of L_j by their pair refinement keeps L_{j+1} coprime within itself, with the new m and with the rest of L_j |
| FactorRefinement.AugmentGenStep | factor_refinement.c:328-348 | the same step keeps m_{j+1} and every base of L_j products of powers of the list |
| FactorRefinement.AssembleFacts | factor_refinement.c:350-357 | joining L_{j+1}, the rest of L_j and (m, e) stands for m_{j+1} times L_j |
| FactorRefinement.AugmentRefinement | factor_refinement.c:311-364 | the output stands for m_{j+1} times the old refinement and has no 1 nodes; with m_{j+1} = 1 it is L_j without its 1s; m_{j+1} and every base of L_j are products of powers of its bases, which are pairwise coprime when L_j's were |
| FactorRefinement.AssembleCoprime | factor_refinement.c:350-360 | once L_j is used up (or m is 1) the joined list without its 1s is pairwise coprime |
| FactorRefinement.AugmentAsWritten | factor_refinement.c:350-360 | as written, the final pop_front also runs when the loop never ran |
| FactorRefinement.DroppedHeadFinding | factor_refinement.c:355-357 | with m_{j+1} = 1 and L_j = [(2, 1), (3, 1)] the as-written output stands for 3, not 6 |
| FactorRefinement.FactorRefinementList | factor_refinement.c:367-382 | the refinement stands for the product of the inputs, with no 1 nodes and positive exponents; its bases are pairwise coprime and every input is a product of powers of them |
| FactorRefinement.RefinementStep | factor_refinement.c:376-382 | folding input x[i] into a refinement of the inputs before it gives a refinement of x[..i + 1] |
| FactorRefinement.Zip | factor_refinement.c:385-396 | the parallel base and exponent arrays read as the node list |
| FactorRefinement.FactorRefinement | factor_refinement.c:366-399 | the base and exponent arrays have equal length, stand for the product of the inputs, and contain no base 1; the bases are pairwise coprime and every input is a product of powers of them |
| Generators.Zeros | generators.c:17-23 | a vector of n zeros |
| Generators.AccumulateEntry | generators.c:151-177 | after any sequence of gen_add, each entry is its start plus the total exponent given to that expression |
| Generators.GeneratorRow | generators.c:125-177 | an opened generator holds, per expression, exactly its total exponent |
| Generators.GeneratorReg.Init | generators.c:37-44 | an empty, closed registry |
| Generators.GeneratorReg.GeneratorsLen | generators.c:53-63 | aborts iff open; otherwise the number of generators |
| Generators.GeneratorReg.GetMatrix | generators.c:66-94 | aborts while open or on wrong dimensions, leaving the matrix; otherwise row i is the i-th registered vector |
| Generators.GeneratorReg.Clear | generators.c:97-120 | aborts while open; otherwise empty again |
| Generators.GeneratorReg.Open | generators.c:125-148 | aborts if already open; otherwise returns the old size, appends a zero vector and opens |
| Generators.GeneratorReg.Add | generators.c:151-177 | aborts when closed; otherwise adds the exponent only to the last vector's entry for the expression |
| Generators.GeneratorReg.Close | generators.c:180-189 | aborts when not open; otherwise closes, keeping every generator |
| Expressions.FirstOf | src/expressions.c:130-137 | the first earlier position holding an equal value (see also src/expressions.c, lines 207-215) |
| Expressions.ExprReg.Init | src/expressions.c:23-28 | an empty registry |
| Expressions.ExprReg.New | src/expressions.c:65-82 | a fresh expression with an empty cache, appended as node (old size, e), with size + 1 |
| Expressions.ExprReg.Vec | src/expressions.c:85-97 | a vector of length size whose entry i is the i-th registered expression |
| Expressions.ExprReg.Clear | src/expressions.c:31-62 | aborts iff a node's index is out of order, the list ends before the tail, or an expression lacks a clear handler, with that reason; otherwise empty, with every expression cleared |
| Expressions.ExprReg.AliasPi | src/expressions.c:124-148 | pi handles are equal iff the frequencies are equal, each is the one of the frequency's first occurrence, and exactly the new registry nodes are used |
| Expressions.ExprReg.AliasMatch | src/expressions.c:200-232 | match and mismatch handles are each shared iff the frequencies are equal, and no match handle is a mismatch handle |
| Expressions.SeparationWitness | src/expressions.c:263-279 | a decided comparison was decided at a level where the two balls do not overlap, with arb_gt's answer there |
| Expressions.SeparationAsymmetric | src/expressions.c:263-284 | for a symmetric overlap test, a > b decided true means b > a is decided false |
| Expressions.TenaciousStrictGt | src/expressions.c:250-293 | identical expressions give false; otherwise the result of comparing the values level by level, or the abort when no level below the cap separates them |
| Femtocas.Expr.Init | src/femtocas.c:61-73 | an empty cache and the default handlers |
| Femtocas.Expr.Install | src/femtocas.c:334-338 | cachesize 0, the evaluator and the type-specific clear handler installed (see also src/femtocas.c, lines 180-189) |
| Femtocas.Expr.Clear | src/femtocas.c:76-89 | cachesize becomes 0; aborts iff the clear handler is the default one; otherwise the default handlers are back |
| Femtocas.Expr.Values | src/femtocas.c:98-115 | the value at each level, cached or not |
| Femtocas.Expr.ExprEval | src/femtocas.c:98-115 | aborts on a level outside 0 .. cap - 1 or an uncached level with the default evaluator; otherwise fills cache[cachesize .. level] in order, sets cachesize to max(cachesize, level + 1), keeps cached levels, and returns the level's value, which never changes |
| Rationals.OneMinusSumSquares | tkf91_rationals.c:42-51 | the submul loop leaves 1 - sum of pi[i]^2 |
| Rationals.RationalsInit | tkf91_rationals.c:8-86 | aborts iff a divisor is 0; otherwise the inputs are copied, qi[i] = 1 - pi[i], negdt = -tau/(1 - sum pi^2), lambda/mu and its complement, beta exponent (lambda - mu) tau, neg_mu_tau = -mu tau |
| Rationals.SquaresStrictlyBelow | tkf91_rationals.c:42-55 | one frequency strictly between 0 and 1 makes the sum of squares smaller than the sum |
| Rationals.NegdtDefined | tkf91_rationals.c:42-55 | for a distribution with no frequency 1 the negdt divisor is positive, so negdt is negative for tau > 0 |
| Rationals.ParamsSigns | tkf91_rationals.c:57-83 | with 0 <= lambda < mu and tau > 0: beta exponent < 0, 0 < 1 - lambda/mu <= 1, -mu tau < 0, negdt < 0 |
| Nucleotides.Code | jsonutil.c:14-47 | '-' gives -1, the rejected characters are exactly the non-letters other than '-', and every code is in {-1, 0, 1, 2, 3} |
| Nucleotides.CodeOfLetter | jsonutil.c:14-47 | printing a code and reading it back gives the code |
| Nucleotides.LetterOfCode | jsonutil.c:16-34 | A/a, C/c, G/g, T/t and '-' read and print back as the upper-case letter |
| Nucleotides.Encode | jsonutil.c:12-48 | defined iff every character is accepted, with the same length and code by code |
| Nucleotides.EncodeLetters | jsonutil.c:12-48 | a printed code vector encodes back to itself |
| Nucleotides.FillSequenceVector | jsonutil.c:7-49 | finishes iff the text encodes, and then v[..n] is the code vector; entries past n are untouched |
| CheckTool.Ungapped | src/arbtkf91-check.c:79-93 | the non-gap entries: no longer than the row, all non-negative |
| CheckTool.UngappedLength | src/arbtkf91-check.c:76-93 | len_A + gaps in row A = alignment length |
| CheckTool.SequencePairInit | src/arbtkf91-check.c:70-94 | the two sequences are the non-negative entries of each row, in order |
| CheckTool.UngappedEncode | src/arbtkf91-check.c:79-93 | encoding then dropping gap codes is dropping '-' then encoding (see also jsonutil.c, lines 7-49) |
| CheckTool.CheckerRecoversSequence | src/arbtkf91-check.c:70-94 | the checker recovers from a printed alignment row exactly the sequence the traceback was given (see also src/dp.c, lines 52-86) |
| CheckTool.YesNo | src/arbtkf91-check.c:207-210 | "yes" iff the flag is set, "no" iff it is not |
| CheckTool.Decimal | src/arbtkf91-check.c:201-205 | base-10 digits without leading zeros |
| CheckTool.DecimalRoundTrip | src/arbtkf91-check.c:201-205 | the digits read back as the count |
| CheckTool.NumberRoundTrip | src/arbtkf91-check.c:197-210 | the count string reads back as the count, and "undetermined" reads back as no count |
| CheckTool.Run | src/arbtkf91-check.c:160-210 | aborts iff a row has an unrecognised character or the lengths differ, with that message; otherwise the mask is (len_A+1) x (len_B+1) and the yes/no strings and the count report the verdict on the recovered sequences |
| Wavefront.SetUndefined | wavefront_hermite.c:23-27 | status UNDEFINED, value -infinity, slice kept |
| Wavefront.SetUndefinedForgets | wavefront_hermite.c:23-27 | idempotent, and it forgets every earlier value and status |
| Wavefront.CRem | wavefront_hermite.c:117 | C's % truncates: Euclidean on k >= 0, in (-m, 0] for k < 0 |
| Wavefront.EntryAsWritten | wavefront_hermite.c:112-122 | as written, every index the lookup returns lies in 0..n*n (inclusive); failures carry the indexing message |
| Wavefront.Entry | wavefront_hermite.c:112-122 | with the corrected check, every index the lookup returns is a cell of the modulus*n array; failures carry the indexing message |
| Wavefront.EntryTop | wavefront_hermite.c:124-128 | the top neighbour, at diagonal k - 1 and position l + 1, is a cell of the array or the indexing abort |
| Wavefront.EntryDiag | wavefront_hermite.c:130-134 | the diagonal neighbour, at diagonal k - 2 and position l, is a cell of the array or the indexing abort |
| Wavefront.EntryLeft | wavefront_hermite.c:136-140 | the left neighbour, at diagonal k - 1 and position l - 1, is a cell of the array or the indexing abort |
| Wavefront.EntryDefined | wavefront_hermite.c:113-122 | for k >= 0 and 0 <= l < n the index is (k mod modulus)*n + l |
| Wavefront.EntryInjective | wavefront_hermite.c:113-122 | two lookups coincide iff the diagonals agree mod the modulus and the positions agree |
| Wavefront.ThreeDiagonalsApart | wavefront_hermite.c:113-122 | with modulus >= 3 diagonal k never shares a cell with k - 1 or k - 2 (see also wavefront_hermite.c, lines 42-47) |
| Wavefront.NeighboursAreGridNeighbours | wavefront_hermite.c:125-140 | under (i, j) -> (i + j, nrows - 1 + j - i), top, diag and left are the grid cells (i-1, j), (i-1, j-1), (i, j-1) |
| Wavefront.WavePositionInverse | wavefront_hermite.c:125-140 | the diagonal and position give the grid cell back |
| Wavefront.EntryBoundFinding | wavefront_hermite.c:115-120 | modulus 3, n 4, k 2, l 4: the as-written check accepts index 12 of a 12-cell array; the corrected one rejects it |
| Wavefront.EntryAsWrittenAgrees | wavefront_hermite.c:113-122 | when modulus <= n and the position is in range, the as-written and corrected checks agree |
| Wavefront.SliceFlat | wavefront_hermite.c:72-84 | the offset k*n*3r + l*3r + c*r is ((k*n + l)*3 + c)*r |
| Wavefront.SlicesDisjoint | wavefront_hermite.c:56-84 | slices of distinct (k, l, c) do not overlap and all lie in the brick |
| Wavefront.EntryRow | wavefront_hermite.c:72-84 | on a stored diagonal the lookup is row k, position l, row by row (see also wavefront_hermite.c, lines 113-122) |
| Wavefront.MakeCell | wavefront_hermite.c:74-83 | the three elements of cell t get slices 3t, 3t+1, 3t+2 and value 0 |
| Wavefront.InitRow | wavefront_hermite.c:74-83 | after the pass over diagonal k, every cell of rows 0 .. k is initialised with its slices and value 0 |
| Wavefront.HwaveMat.Init | wavefront_hermite.c:56-84 | every cell of the modulus*n array initialised with its slices |
| Wavefront.HwaveMatInit | wavefront_hermite.c:30-85 | aborts iff modulus < 3 or modulus > n, with the matching message; otherwise a matrix whose every cell is initialised |

## Left out

- `fr_node_list_length`: the list is a sequence, so its length is `|l|`. `FactorRefinement.FactorRefinement` sizes its arrays by it.
- `fr_node_list_pop_front` aborting when `phead` aliases `ptail`: the model's lists are values, so there are no pointers to alias.
- `fr_node_list_concat`: concatenation of sequence values (`+`), with no separate member.
- FactorRefinement.PairRefineUnreduced: bases must be at least 1. With a base 0 the C gcd loop never ends: 0 and its neighbour keep splitting.
- FactorRefinement.FactorRefinement: inputs must be at least 1, for the same reason.
- CrumbCount.CountAsWritten: with more rows than columns, the model returns the abort PastMatrix without following which fault the C reaches first. That fault is a missing count in a wrapped-around cell, a contender slot past the counts, or the read past the matrix data on the last row. Every one of them is undefined behaviour, so no count comes back.
- `generator_reg_expressions_len` is a field read (`exprLen`).
- The node frees of `generator_reg_clear` and `reg_clear` are not modelled.
- `tkf91_expressions_init` beyond its two aliasing loops is not modelled: it is a fixed sequence of `reg_new` calls building arb expressions.
- The arb `_expr_*_eval` bodies are not modelled: an evaluator is a function from a level to an abstract ball. Ball arithmetic and `arb_overlaps`/`arb_gt` are parameters.
- `reg_new` linking userdata back to the node: no userdata pointer is modelled.
- `slong` overflow of indices and counts is not modelled; integers are unbounded.
- `solve` and the body of `breadcrumb_mat_check_alignment` (not among these sources) are not part of this model. `CheckTool.Run` takes the judgement and the tie count as parameters.
- JSON parsing of the request and the model parameters is not modelled, nor the abort on unexpected userdata.
- `fmpz_get_str` is modelled only for non-negative counts, as decimal digits.
- `hwave_mat_clear` and element init/clear: memory management.
- `Wavefront.HwaveMat.Init`: the element status, which the C leaves uninitialised, is not stated.
- `Wavefront.Element`: an arb value is `Option<real>`, where None is -infinity. This holds exact values only, not balls.
- `Forward.DpForward`: the strategy's init and clear callbacks are not modelled. The buffer starts as `2 * ncols` copies of a blank value, and nothing is freed.
- `DpCount.CountSolutions`: the path count is proved under the hypothesis that no visited cell reads a neighbour slot left over from an unvisited cell. Without it, the result is still exactly what the sweep computes (`Forward.DpForward`).
- `Traceback.Trail`: a step that would read `A[-1]` or `B[-1]`, which the C does not guard against, ends the traceback with its own reason.
- `dp_mat_clear`, `breadcrumb_mat_clear`, `dp_mat_fprint`, `fr_node_list_print`: memory management and printing.
- Printing to stderr, `main` and all other I/O.

## Findings

| source | as written | input that shows it | evidently intended | confidence | as-written member | corrected member |
|---|---|---|---|---|---|---|
| count_solutions.c:56-57 | `ncols` is read with `breadcrumb_mat_nrows`: with nrows <= ncols only the first nrows columns are counted; with nrows > ncols cells are read past the end of each row and, on the last row, past the matrix data | 2 x 3 tableau `CrumbCount.TwoPaths` with two contender paths: the result is 1, the count of cell (1, 1) | the number of columns, giving 2 | not executed | CrumbCount.CountAsWritten, CrumbCount.ColumnBoundFinding | CrumbCount.CountSolutions |
| factor_refinement.c:355-357 | the final `pop_front` of L_j also runs when the loop body never ran (m_{j+1} = 1), dropping the head of the refinement | m_{j+1} = 1, L_j = [(2, 1), (3, 1)]: the output stands for 3 instead of 6 | join Rest(L_j) as the loop left it, so that with m_{j+1} = 1 the output is L_j without its 1s (latent: factor_refinement skips inputs equal to 1) | not executed | FactorRefinement.AugmentAsWritten, FactorRefinement.DroppedHeadFinding | FactorRefinement.AugmentRefinement |
| wavefront_hermite.c:115-120 | the bounds check rejects only indices above n*n | modulus 3, n 4, k 2, l 4: index 12 passes, but the array has 12 cells | reject indices at or above modulus*n (latent: the only caller, src/tkf91_dp_r.c:166, passes n = nrows + ncols - 1 and modulus 3 and keeps 0 <= l < n, where both checks agree) | not executed | Wavefront.EntryAsWritten, Wavefront.EntryBoundFinding | Wavefront.Entry |
