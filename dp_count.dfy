/**
 * count_solutions (src/count_solutions.c): counts the optimal alignments
 * recorded in a flag tableau by running dp_forward with a visitor that
 * keeps one count per cell. A TRACE cell's count is 1 at (0, 0) plus the
 * counts of the top, diagonal and left neighbours its MAX3_M0, MAX3_M1 and
 * MAX3_M2 bits allow; any other visited cell counts 0. The count of the
 * bottom-right cell is stored in the result.
 */
module DpCount {
  import opened Basics
  import opened DpFlags
  import opened Traceback
  import opened DpCheck
  import opened DpMatrix
  import opened Forward
  import opened TracePaths

  /** The count of the visited cell from its neighbours' slots (_visit). */
  function CellCount(v: Visit<int>): (p: int)
    ensures !Has(At(v.cells, v.ncols, v.i, v.j), TRACE) ==> p == 0
  {
    var x := At(v.cells, v.ncols, v.i, v.j);
    if !Has(x, TRACE) then 0
    else
      (if v.i == 0 && v.j == 0 then 1 else 0)
      + (if v.top.Some? && Has(x, MAX3_M0) then v.top.value else 0)
      + (if v.diag.Some? && Has(x, MAX3_M1) then v.diag.value else 0)
      + (if v.left.Some? && Has(x, MAX3_M2) then v.left.value else 0)
  }

  /** _visit: writes the cell's count, copies it to the result at the bottom-right cell, and never stops the iteration. */
  function CountVisit(res: int, v: Visit<int>): (r: Visited<int, int>)
    ensures r.result == 0 && r.curr == CellCount(v)
    ensures r.user == if v.i + 1 == v.nrows && v.j + 1 == v.ncols then r.curr else res
  {
    var p := CellCount(v);
    Visited(if v.i + 1 == v.nrows && v.j + 1 == v.ncols then p else res, p, 0)
  }

  /**
   * Every slot the counter reads holds a count written in the current pass:
   * each TRACE cell is visited, and so is each neighbour one of its
   * direction bits points to. Without this a read can see a count left in
   * the slot by a cell two rows up.
   */
  ghost predicate NoStaleReads(cells: seq<bv8>, nrows: nat, ncols: nat) {
    forall r: nat, c: nat {:trigger At(cells, ncols, r, c)} :: r < nrows && c < ncols && Has(At(cells, ncols, r, c), TRACE) ==>
      && Active(At(cells, ncols, r, c))
      && (Allows(cells, ncols, DpMasks, r, c, Top) ==> Active(At(cells, ncols, r - 1, c)))
      && (Allows(cells, ncols, DpMasks, r, c, Diag) ==> Active(At(cells, ncols, r - 1, c - 1)))
      && (Allows(cells, ncols, DpMasks, r, c, Left) ==> Active(At(cells, ncols, r, c - 1)))
  }

  function Paths0(cells: seq<bv8>, ncols: nat, i: nat, j: nat): nat {
    NumPaths(cells, ncols, DpMasks, TRACE, i, j)
  }

  /** The two halves of the buffer hold the counts of the visited cells of the current row before column j and of the whole previous row. */
  ghost predicate Counted(cells: seq<bv8>, nrows: nat, ncols: nat, i: nat, j: nat, row: nat, buf: seq<int>)
    requires j <= ncols && (row == 0 || row == ncols) && |buf| == 2 * ncols
  {
    RowCounted(cells, ncols, i, row, j, buf) && (i > 0 ==> RowCounted(cells, ncols, i - 1, ncols - row, ncols, buf))
  }

  /** The slots from offset off hold the counts of the visited cells among the first n of row r. */
  ghost predicate RowCounted(cells: seq<bv8>, ncols: nat, r: nat, off: nat, n: nat, buf: seq<int>)
    requires off + n <= |buf|
  {
    forall c :: 0 <= c < n && Active(At(cells, ncols, r, c)) ==> buf[off + c] == Paths0(cells, ncols, r, c)
  }

  /** The result the pass has produced once it is past cell (i, j - 1). */
  function Expected(cells: seq<bv8>, nrows: nat, ncols: nat, i: nat, j: nat, res0: int): int
    requires nrows >= 1 && ncols >= 1
  {
    var past := i == nrows || (i == nrows - 1 && j == ncols);
    if past && Active(At(cells, ncols, nrows - 1, ncols - 1)) then Paths0(cells, ncols, nrows - 1, ncols - 1) else res0
  }

  /** Visiting an active cell whose neighbours' slots are up to date writes its path count. */
  lemma CellCountIsPaths(cells: seq<bv8>, nrows: nat, ncols: nat, i: nat, j: nat, row: nat, buf: seq<int>)
    requires i < nrows && j < ncols && (row == 0 || row == ncols) && |buf| == 2 * ncols
    requires NoStaleReads(cells, nrows, ncols) && Counted(cells, nrows, ncols, i, j, row, buf)
    ensures CellCount(Look(cells, nrows, ncols, i, j, row, buf)) == Paths0(cells, ncols, i, j)
  {
    var x := At(cells, ncols, i, j);
    var alt := ncols - row;
    if Has(x, TRACE) {
      assert Active(x);
      if Allows(cells, ncols, DpMasks, i, j, Top) {
        SlotCount(cells, ncols, i - 1, alt, ncols, buf, j);
      }
      if Allows(cells, ncols, DpMasks, i, j, Diag) {
        SlotCount(cells, ncols, i - 1, alt, ncols, buf, j - 1);
      }
      if Allows(cells, ncols, DpMasks, i, j, Left) {
        SlotCount(cells, ncols, i, row, j, buf, j - 1);
      }
    }
    CellCountParts(cells, nrows, ncols, i, j, row, buf);
  }

  /** The visitor's sum and the path count agree term by term once the slots it reads hold the neighbours' counts. */
  lemma CellCountParts(cells: seq<bv8>, nrows: nat, ncols: nat, i: nat, j: nat, row: nat, buf: seq<int>)
    requires i < nrows && j < ncols && (row == 0 || row == ncols) && |buf| == 2 * ncols
    requires Has(At(cells, ncols, i, j), TRACE) && Allows(cells, ncols, DpMasks, i, j, Top) ==>
      buf[ncols - row + j] == Paths0(cells, ncols, i - 1, j)
    requires Has(At(cells, ncols, i, j), TRACE) && Allows(cells, ncols, DpMasks, i, j, Diag) ==>
      buf[ncols - row + j - 1] == Paths0(cells, ncols, i - 1, j - 1)
    requires Has(At(cells, ncols, i, j), TRACE) && Allows(cells, ncols, DpMasks, i, j, Left) ==>
      buf[row + j - 1] == Paths0(cells, ncols, i, j - 1)
    ensures CellCount(Look(cells, nrows, ncols, i, j, row, buf)) == Paths0(cells, ncols, i, j)
  {
  }

  /** A slot of a counted row holds the path count of its visited cell. */
  lemma SlotCount(cells: seq<bv8>, ncols: nat, r: nat, off: nat, n: nat, buf: seq<int>, c: nat)
    requires off + n <= |buf| && RowCounted(cells, ncols, r, off, n, buf)
    requires c < n && Active(At(cells, ncols, r, c))
    ensures buf[off + c] == Paths0(cells, ncols, r, c)
  {
  }

  lemma CountedStep(cells: seq<bv8>, nrows: nat, ncols: nat, i: nat, j: nat, row: nat, buf: seq<int>, p: int)
    requires i < nrows && j < ncols && (row == 0 || row == ncols) && |buf| == 2 * ncols
    requires Counted(cells, nrows, ncols, i, j, row, buf) && p == Paths0(cells, ncols, i, j)
    ensures Counted(cells, nrows, ncols, i, j + 1, row, buf[row + j := p])
  {
  }

  /**
   * From any point of the pass on, with the buffer up to date, the pass
   * ends with the bottom-right cell's path count (or leaves the result as
   * it was when that cell is not visited).
   */
  lemma {:induction false} CountFrom(cells: seq<bv8>, nrows: nat, ncols: nat, i: nat, j: nat, row: nat, buf: seq<int>, u: int, res0: int)
    requires nrows >= 1 && ncols >= 1 && i <= nrows && j <= ncols && (row == 0 || row == ncols) && |buf| == 2 * ncols
    requires NoStaleReads(cells, nrows, ncols) && Counted(cells, nrows, ncols, i, j, row, buf)
    requires u == Expected(cells, nrows, ncols, i, j, res0)
    ensures Sweep(cells, nrows, ncols, CountVisit, i, j, row, buf, u, 0) == Finish(Expected(cells, nrows, ncols, nrows, 0, res0), 0)
    decreases nrows - i, ncols - j
  {
    if i == nrows {
    } else if j == ncols {
      SweepRowEnd(cells, nrows, ncols, CountVisit, i, row, buf, u, 0);
      CountFrom(cells, nrows, ncols, i + 1, 0, ncols - row, buf, u, res0);
    } else if !Active(At(cells, ncols, i, j)) {
      SweepCell(cells, nrows, ncols, CountVisit, i, j, row, buf, u);
      CountFrom(cells, nrows, ncols, i, j + 1, row, buf, u, res0);
    } else {
      SweepCell(cells, nrows, ncols, CountVisit, i, j, row, buf, u);
      var v := CountVisit(u, Look(cells, nrows, ncols, i, j, row, buf));
      CellCountIsPaths(cells, nrows, ncols, i, j, row, buf);
      CountedStep(cells, nrows, ncols, i, j, row, buf, v.curr);
      CountFrom(cells, nrows, ncols, i, j + 1, row, buf[row + j := v.curr], v.user, res0);
    }
  }

  /**
   * count_solutions: when no stale slot is read, the result is the number
   * of TRACE paths from (0, 0) to the bottom-right cell (Paths0, the number
   * of distinct paths TracePaths lists); when that cell is not visited the
   * result is left as it was.
   */
  method CountSolutions(mat: DpMat, res0: int) returns (res: int)
    requires mat.Valid()
    ensures mat.nrows >= 1 && mat.ncols >= 1 && NoStaleReads(mat.data[..], mat.nrows, mat.ncols) ==>
      res == if Active(At(mat.data[..], mat.ncols, mat.nrows - 1, mat.ncols - 1))
             then Paths0(mat.data[..], mat.ncols, mat.nrows - 1, mat.ncols - 1) else res0
  {
    var result;
    res, result := DpForward(mat, CountVisit, 0, res0);
    if mat.nrows >= 1 && mat.ncols >= 1 && NoStaleReads(mat.data[..], mat.nrows, mat.ncols) {
      CountFrom(mat.data[..], mat.nrows, mat.ncols, 0, 0, 0, seq(2 * mat.ncols, _ => 0), res0, res0);
    }
  }
}
