/**
 * dp_forward (src/forward.c): visits the cells of a flag tableau in
 * row-major order, only those whose MAX2 or MAX3 bit is set, and hands the
 * visitor the data slots of the cell and of its top, diagonal and left
 * neighbours. Only two rows of cell data exist: the current row and the
 * previous one, whose roles swap after every row. A nonzero visit result
 * ends the iteration and is returned.
 */
module Forward {
  import opened Basics
  import opened DpFlags
  import opened DpMatrix

  /** What one visit sees: the tableau, the cell, its own data slot and its neighbours' (None where they do not exist). */
  datatype Visit<T> = Visit(cells: seq<bv8>, nrows: nat, ncols: nat, i: nat, j: nat,
                            curr: T, top: Option<T>, diag: Option<T>, left: Option<T>)

  /** What a visit returns: the new user data, the new data of the cell, and the result code. */
  datatype Visited<T, U> = Visited(user: U, curr: T, result: int)

  /** What the iteration ends with: the user data and the result it returns. */
  datatype Finish<U> = Finish(user: U, result: int)

  /** A cell is visited when its MAX2 or MAX3 bit is set. */
  predicate Active(x: bv8) {
    x & (MAX2 | MAX3) != 0
  }

  /**
   * The visit of cell (i, j) when its row's data starts at offset row of
   * buf and the previous row's at the other half: the neighbours that exist
   * are the slots written for (i - 1, j), (i - 1, j - 1) and (i, j - 1).
   */
  function Look<T>(cells: seq<bv8>, nrows: nat, ncols: nat, i: nat, j: nat, row: nat, buf: seq<T>): (v: Visit<T>)
    requires j < ncols && (row == 0 || row == ncols) && |buf| == 2 * ncols
    ensures v.i == i && v.j == j && v.curr == buf[row + j]
    ensures v.top.Some? <==> i > 0
    ensures v.diag.Some? <==> i > 0 && j > 0
    ensures v.left.Some? <==> j > 0
  {
    var alt := ncols - row;
    Visit(cells, nrows, ncols, i, j, buf[row + j],
          if i > 0 then Some(buf[alt + j]) else None,
          if i > 0 && j > 0 then Some(buf[alt + j - 1]) else None,
          if j > 0 then Some(buf[row + j - 1]) else None)
  }

  /** The neighbour slots as dp_forward picks them out of the buffer. */
  lemma LookIs<T>(cells: seq<bv8>, nrows: nat, ncols: nat, i: nat, j: nat, row: nat, buf: seq<T>,
                  top: Option<T>, diag: Option<T>, left: Option<T>)
    requires j < ncols && (row == 0 || row == ncols) && |buf| == 2 * ncols
    requires top == if i > 0 then Some(buf[ncols - row + j]) else None
    requires diag == if i > 0 && j > 0 then Some(buf[ncols - row + j - 1]) else None
    requires left == if j > 0 then Some(buf[row + j - 1]) else None
    ensures Visit(cells, nrows, ncols, i, j, buf[row + j], top, diag, left) == Look(cells, nrows, ncols, i, j, row, buf)
  {
  }

  /**
   * The iteration from cell (i, j) on, in row-major order: it stops at the
   * end of the tableau or as soon as a result is nonzero, skips inactive
   * cells, and swaps the two rows at the end of each row.
   */
  function Sweep<T, U>(cells: seq<bv8>, nrows: nat, ncols: nat, visit: (U, Visit<T>) -> Visited<T, U>,
                       i: nat, j: nat, row: nat, buf: seq<T>, u: U, result: int): Finish<U>
    requires i <= nrows && j <= ncols && (row == 0 || row == ncols) && |buf| == 2 * ncols
    decreases nrows - i, ncols - j
  {
    if result != 0 || i == nrows then Finish(u, result)
    else if j == ncols then Sweep(cells, nrows, ncols, visit, i + 1, 0, ncols - row, buf, u, result)
    else if !Active(At(cells, ncols, i, j)) then Sweep(cells, nrows, ncols, visit, i, j + 1, row, buf, u, result)
    else
      var v := visit(u, Look(cells, nrows, ncols, i, j, row, buf));
      Sweep(cells, nrows, ncols, visit, i, j + 1, row, buf[row + j := v.curr], v.user, v.result)
  }

  /** Once a result is nonzero nothing more is visited: the user data and the result are final. */
  lemma SweepStops<T, U>(cells: seq<bv8>, nrows: nat, ncols: nat, visit: (U, Visit<T>) -> Visited<T, U>,
                         i: nat, j: nat, row: nat, buf: seq<T>, u: U, result: int)
    requires i <= nrows && j <= ncols && (row == 0 || row == ncols) && |buf| == 2 * ncols
    requires result != 0
    ensures Sweep(cells, nrows, ncols, visit, i, j, row, buf, u, result) == Finish(u, result)
  {
  }

  lemma SweepCell<T, U>(cells: seq<bv8>, nrows: nat, ncols: nat, visit: (U, Visit<T>) -> Visited<T, U>,
                        i: nat, j: nat, row: nat, buf: seq<T>, u: U)
    requires i < nrows && j < ncols && (row == 0 || row == ncols) && |buf| == 2 * ncols
    ensures Sweep(cells, nrows, ncols, visit, i, j, row, buf, u, 0) ==
      if !Active(At(cells, ncols, i, j)) then Sweep(cells, nrows, ncols, visit, i, j + 1, row, buf, u, 0)
      else
        var v := visit(u, Look(cells, nrows, ncols, i, j, row, buf));
        Sweep(cells, nrows, ncols, visit, i, j + 1, row, buf[row + j := v.curr], v.user, v.result)
  {
  }

  lemma SweepRowEnd<T, U>(cells: seq<bv8>, nrows: nat, ncols: nat, visit: (U, Visit<T>) -> Visited<T, U>,
                          i: nat, row: nat, buf: seq<T>, u: U, result: int)
    requires i < nrows && (row == 0 || row == ncols) && |buf| == 2 * ncols
    ensures Sweep(cells, nrows, ncols, visit, i, ncols, row, buf, u, result)
         == Sweep(cells, nrows, ncols, visit, i + 1, 0, ncols - row, buf, u, result)
  {
  }

  /**
   * dp_forward: a buffer of 2 * ncols slots, all holding blank (what the
   * strategy's init returns), the rows visited in order with the row and
   * alternate-row halves swapped after each, and the user data and result
   * of the last visit returned.
   */
  method DpForward<T, U>(mat: DpMat, visit: (U, Visit<T>) -> Visited<T, U>, blank: T, u0: U)
    returns (u: U, result: int)
    requires mat.Valid()
    ensures Finish(u, result) == Sweep(mat.data[..], mat.nrows, mat.ncols, visit, 0, 0, 0, seq(2 * mat.ncols, _ => blank), u0, 0)
  {
    var nrows, ncols := mat.nrows, mat.ncols;
    var cells := mat.data[..];
    var buffer := new T[2 * ncols](_ => blank);
    assert buffer[..] == seq(2 * ncols, _ => blank);
    ghost var goal := Sweep(cells, nrows, ncols, visit, 0, 0, 0, buffer[..], u0, 0);
    var row, alt := 0, ncols;
    u, result := u0, 0;
    var i := 0;
    while i < nrows && result == 0
      invariant i <= nrows && (row == 0 || row == ncols) && alt == ncols - row
      invariant buffer.Length == 2 * ncols
      invariant Sweep(cells, nrows, ncols, visit, i, 0, row, buffer[..], u, result) == goal
      decreases nrows - i
    {
      u, result := VisitRow(cells, nrows, ncols, visit, i, row, alt, buffer, u);
      row, alt := alt, row;
      i := i + 1;
    }
    assert Sweep(cells, nrows, ncols, visit, i, 0, row, buffer[..], u, result) == Finish(u, result);
    assert mat.data[..] == cells;
  }

  /** One row of dp_forward, up to its end or to the first nonzero result; the caller swaps the rows afterwards. */
  method VisitRow<T, U>(cells: seq<bv8>, nrows: nat, ncols: nat, visit: (U, Visit<T>) -> Visited<T, U>,
                        i: nat, row: nat, alt: nat, buffer: array<T>, u0: U)
    returns (u: U, result: int)
    requires i < nrows && |cells| == nrows * ncols && (row == 0 || row == ncols) && alt == ncols - row
    requires buffer.Length == 2 * ncols
    modifies buffer
    ensures Sweep(cells, nrows, ncols, visit, i, 0, row, old(buffer[..]), u0, 0)
         == Sweep(cells, nrows, ncols, visit, i + 1, 0, alt, buffer[..], u, result)
  {
    ghost var goal := Sweep(cells, nrows, ncols, visit, i, 0, row, buffer[..], u0, 0);
    u, result := u0, 0;
    var j := 0;
    while j < ncols && result == 0
      invariant j <= ncols
      invariant Sweep(cells, nrows, ncols, visit, i, j, row, buffer[..], u, result) == goal
    {
      var top: Option<T>, diag: Option<T>, left: Option<T> := None, None, None;
      if j > 0 {
        left := Some(buffer[row + j - 1]);
      }
      if i > 0 {
        top := Some(buffer[alt + j]);
      }
      if i > 0 && j > 0 {
        diag := Some(buffer[alt + j - 1]);
      }
      EntryInBounds(nrows, ncols, i, j);
      var x := cells[Entry(ncols, i, j)];
      SweepCell(cells, nrows, ncols, visit, i, j, row, buffer[..], u);
      if Active(x) {
        LookIs(cells, nrows, ncols, i, j, row, buffer[..], top, diag, left);
        var v := visit(u, Visit(cells, nrows, ncols, i, j, buffer[row + j], top, diag, left));
        buffer[row + j] := v.curr;
        u, result := v.user, v.result;
      }
      j := j + 1;
    }
    if result != 0 {
      SweepStops(cells, nrows, ncols, visit, i, j, row, buffer[..], u, result);
      SweepStops(cells, nrows, ncols, visit, i + 1, 0, alt, buffer[..], u, result);
    } else {
      SweepRowEnd(cells, nrows, ncols, visit, i, row, buffer[..], u, result);
    }
  }
}
