/**
 * The generalized traceback of dp_mat_backward (src/dp.c): after the
 * forward pass has marked, per cell, which of m0, m1, m2 reach the maxima,
 * a backward sweep recomputes which cells are still of interest (MAX3,
 * MAX2) and which lie on some optimal path (TRACE). BackCell is the value
 * the sweep leaves in a cell, defined from the cells after it.
 */
module DpBackward {
  import opened Basics
  import opened DpFlags
  import opened Traceback
  import opened DpCheck

  /** The bits the sweep recomputes; every other bit is kept. */
  const Recomputed: bv8 := MAX3 | TRACE | MAX2

  /** A cell after the clearing pass, with MAX3 and TRACE set again on the bottom-right cell. */
  function Base(cells0: seq<bv8>, nrows: nat, ncols: nat, i: nat, j: nat): (x: bv8)
    requires i < nrows && j < ncols
  {
    var cleared := At(cells0, ncols, i, j) & !Recomputed;
    if i == nrows - 1 && j == ncols - 1 then cleared | MAX3 | TRACE else cleared
  }

  /** What the cell to the right contributes: TRACE through an m2 step, MAX2 when its m2 is of interest. */
  function FromRight(y: bv8): bv8 {
    (if Has(y, TRACE) && Has(y, MAX3_M2) then TRACE else 0) | (if M2Interesting(y) then MAX2 else 0)
  }

  /** What the cell to the lower right contributes: TRACE through an m1 step, MAX3 when its m1 is of interest. */
  function FromDiag(y: bv8): bv8 {
    (if Has(y, TRACE) && Has(y, MAX3_M1) then TRACE else 0) | (if M1Interesting(y) then MAX3 else 0)
  }

  /** What the cell below contributes: TRACE through an m0 step, MAX3 when its m0 is of interest. */
  function FromBelow(y: bv8): bv8 {
    (if Has(y, TRACE) && Has(y, MAX3_M0) then TRACE else 0) | (if M0Interesting(y) then MAX3 else 0)
  }

  /** The byte the backward sweep leaves in cell (i, j) of a tableau that held cells0. */
  function BackCell(cells0: seq<bv8>, nrows: nat, ncols: nat, i: nat, j: nat): (x: bv8)
    requires i < nrows && j < ncols
    decreases nrows - i + ncols - j
  {
    Base(cells0, nrows, ncols, i, j)
    | (if j < ncols - 1 then FromRight(BackCell(cells0, nrows, ncols, i, j + 1)) else 0)
    | (if i < nrows - 1 && j < ncols - 1 then FromDiag(BackCell(cells0, nrows, ncols, i + 1, j + 1)) else 0)
    | (if i < nrows - 1 then FromBelow(BackCell(cells0, nrows, ncols, i + 1, j)) else 0)
  }

  /** The sweep changes only MAX3, TRACE and MAX2: which of m0, m1, m2 compete is left as it was. */
  lemma BackKeepsCompetitors(cells0: seq<bv8>, nrows: nat, ncols: nat, i: nat, j: nat)
    requires i < nrows && j < ncols
    ensures BackCell(cells0, nrows, ncols, i, j) & !Recomputed == At(cells0, ncols, i, j) & !Recomputed
  {
  }

  /** The bottom-right cell keeps its competitors and gets MAX3 and TRACE. */
  lemma BackCorner(cells0: seq<bv8>, nrows: nat, ncols: nat)
    requires nrows >= 1 && ncols >= 1
    ensures BackCell(cells0, nrows, ncols, nrows - 1, ncols - 1)
         == (At(cells0, ncols, nrows - 1, ncols - 1) & !Recomputed) | MAX3 | TRACE
  {
  }

  /**
   * A cell is on an optimal path exactly when it is the bottom-right cell or
   * a TRACE neighbour after it is reached from it by the step that neighbour
   * allows: m2 from the right, m1 from the lower right, m0 from below.
   */
  lemma BackTrace(cells0: seq<bv8>, nrows: nat, ncols: nat, i: nat, j: nat)
    requires i < nrows && j < ncols
    ensures Has(BackCell(cells0, nrows, ncols, i, j), TRACE) <==>
      || (i == nrows - 1 && j == ncols - 1)
      || (j < ncols - 1 && var y := BackCell(cells0, nrows, ncols, i, j + 1); Has(y, TRACE) && Has(y, MAX3_M2))
      || (i < nrows - 1 && j < ncols - 1 && var y := BackCell(cells0, nrows, ncols, i + 1, j + 1); Has(y, TRACE) && Has(y, MAX3_M1))
      || (i < nrows - 1 && var y := BackCell(cells0, nrows, ncols, i + 1, j); Has(y, TRACE) && Has(y, MAX3_M0))
  {
  }

  /** Whether the traceback from (i, j) visits only TRACE cells until it stops. */
  ghost predicate StaysOnTrace(cells: seq<bv8>, ncols: nat, m: Masks, i: nat, j: nat)
    decreases i + j
  {
    && Has(At(cells, ncols, i, j), TRACE)
    && ((i > 0 || j > 0) ==>
          match Choose(At(cells, ncols, i, j), m)
          case None => true
          case Some(d) => Fits(d, i, j) ==> StaysOnTrace(cells, ncols, m, Back(d, true, i), Back(d, false, j)))
  }

  /** cells is what the sweep leaves in a tableau that held cells0. */
  ghost predicate SweptFrom(cells: seq<bv8>, cells0: seq<bv8>, nrows: nat, ncols: nat) {
    forall r: nat, c: nat {:trigger At(cells, ncols, r, c)} :: r < nrows && c < ncols ==> At(cells, ncols, r, c) == BackCell(cells0, nrows, ncols, r, c)
  }

  /** One step of the traceback from a TRACE cell of a swept tableau lands on a TRACE cell. */
  lemma TraceStep(cells: seq<bv8>, cells0: seq<bv8>, nrows: nat, ncols: nat, i: nat, j: nat, d: Dir)
    requires SweptFrom(cells, cells0, nrows, ncols)
    requires i < nrows && j < ncols && Has(At(cells, ncols, i, j), TRACE)
    requires Choose(At(cells, ncols, i, j), DpMasks) == Some(d) && Fits(d, i, j)
    ensures Has(At(cells, ncols, Back(d, true, i), Back(d, false, j)), TRACE)
  {
    var y := BackCell(cells0, nrows, ncols, i, j);
    assert At(cells, ncols, i, j) == y;
    var i', j' := Back(d, true, i), Back(d, false, j);
    assert At(cells, ncols, i', j') == BackCell(cells0, nrows, ncols, i', j');
    match d
    case Top => assert Has(FromBelow(y), TRACE);
    case Diag => assert Has(FromDiag(y), TRACE);
    case Left => assert Has(FromRight(y), TRACE);
  }

  /**
   * After the sweep, the traceback from any TRACE cell (in particular from
   * the bottom-right cell) stays on TRACE cells.
   */
  lemma {:induction false} TracebackStaysOnTrace(cells: seq<bv8>, cells0: seq<bv8>, nrows: nat, ncols: nat, i: nat, j: nat)
    requires SweptFrom(cells, cells0, nrows, ncols)
    requires i < nrows && j < ncols && Has(At(cells, ncols, i, j), TRACE)
    ensures StaysOnTrace(cells, ncols, DpMasks, i, j)
    decreases i + j
  {
    if i > 0 || j > 0 {
      var c := Choose(At(cells, ncols, i, j), DpMasks);
      if c.Some? && Fits(c.value, i, j) {
        TraceStep(cells, cells0, nrows, ncols, i, j, c.value);
        TracebackStaysOnTrace(cells, cells0, nrows, ncols, Back(c.value, true, i), Back(c.value, false, j));
      }
    }
  }

  /** The traceback after a sweep starts on a TRACE cell and never leaves them. */
  lemma SweptTracebackOnTrace(cells: seq<bv8>, cells0: seq<bv8>, nrows: nat, ncols: nat)
    requires nrows >= 1 && ncols >= 1
    requires SweptFrom(cells, cells0, nrows, ncols)
    ensures StaysOnTrace(cells, ncols, DpMasks, nrows - 1, ncols - 1)
  {
    BackCorner(cells0, nrows, ncols);
    TracebackStaysOnTrace(cells, cells0, nrows, ncols, nrows - 1, ncols - 1);
  }
}
