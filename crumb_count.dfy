/**
 * count_solutions (count_solutions.c): counts the optimal alignments of a
 * breadcrumb tableau. Only CRUMB_CONTENDER cells get a count; the counts of
 * two rows live in a buffer of 2 * max_row_nnz entries, packed per row,
 * and a second buffer of two rows of references says which entry holds
 * the count of each cell (or none, the C NULL, here -1).
 *
 * The routine reads the number of columns from the number of rows. The
 * loops here take the column bound cols as a parameter: CountAsWritten
 * passes nrows, as the source does, and CountSolutions passes ncols.
 */
module CrumbCount {
  import opened Basics
  import opened DpFlags
  import opened Traceback
  import opened Breadcrumbs
  import opened TracePaths

  const NullCount := "reads the count of a cell that has none"
  const EmptyCorner := "the bottom right entry of the tableau is empty"
  const PastMatrix := "reads a cell past the end of the matrix data"

  predicate Contender(cells: seq<bv8>, ncols: nat, i: nat, j: nat) {
    Has(At(cells, ncols, i, j), CRUMB_CONTENDER)
  }

  /** The number of contenders among the first n cells of row i. */
  function RowNnz(cells: seq<bv8>, ncols: nat, i: nat, n: nat): (r: nat)
    ensures r <= n
  {
    if n == 0 then 0 else RowNnz(cells, ncols, i, n - 1) + (if Contender(cells, ncols, i, n - 1) then 1 else 0)
  }

  lemma {:induction false} RowNnzMono(cells: seq<bv8>, ncols: nat, i: nat, c: nat, n: nat)
    requires c < n && Contender(cells, ncols, i, c)
    ensures RowNnz(cells, ncols, i, c) < RowNnz(cells, ncols, i, n)
    decreases n
  {
    if c < n - 1 {
      RowNnzMono(cells, ncols, i, c, n - 1);
    }
  }

  /** The largest number of contenders in one of the first n rows (0 when there are none). */
  function MaxNnz(cells: seq<bv8>, ncols: nat, n: nat): (r: nat)
    ensures forall i :: 0 <= i < n ==> RowNnz(cells, ncols, i, ncols) <= r
    ensures n > 0 ==> exists i :: 0 <= i < n && RowNnz(cells, ncols, i, ncols) == r
  {
    if n == 0 then 0
    else
      var m := MaxNnz(cells, ncols, n - 1);
      var c := RowNnz(cells, ncols, n - 1, ncols);
      if c > m then c else m
  }

  /** _breadcrumb_mat_max_row_nnz: the row with the most contenders bounds the size of a packed row of counts. */
  method MaxRowNnz(mat: CrumbMat) returns (best: nat)
    requires mat.Valid()
    ensures best == MaxNnz(mat.data[..], mat.ncols, mat.nrows)
  {
    var cells, nrows, ncols := mat.data[..], mat.nrows, mat.ncols;
    best := 0;
    var i := 0;
    while i < nrows
      invariant i <= nrows && best == MaxNnz(cells, ncols, i)
    {
      var curr := RowContenders(cells, nrows, ncols, i);
      if curr > best {
        best := curr;
      }
      i := i + 1;
    }
  }

  /** The inner loop of _breadcrumb_mat_max_row_nnz: the number of contenders in row i. */
  method RowContenders(cells: seq<bv8>, nrows: nat, ncols: nat, i: nat) returns (curr: nat)
    requires |cells| == nrows * ncols && i < nrows
    ensures curr == RowNnz(cells, ncols, i, ncols)
  {
    curr := 0;
    var j := 0;
    while j < ncols
      invariant j <= ncols && curr == RowNnz(cells, ncols, i, j)
    {
      EntryInBounds(nrows, ncols, i, j);
      if cells[Entry(ncols, i, j)] & CRUMB_CONTENDER != 0 {
        curr := curr + 1;
      }
      j := j + 1;
    }
  }

  /** Cell (i, j) reads no missing count: every neighbour its TOP, DIAG and LEFT bits point to is a contender. */
  predicate NullFree(cells: seq<bv8>, ncols: nat, i: nat, j: nat) {
    Contender(cells, ncols, i, j) ==>
      && (Allows(cells, ncols, CrumbMasks, i, j, Top) ==> Contender(cells, ncols, i - 1, j))
      && (Allows(cells, ncols, CrumbMasks, i, j, Diag) ==> Contender(cells, ncols, i - 1, j - 1))
      && (Allows(cells, ncols, CrumbMasks, i, j, Left) ==> Contender(cells, ncols, i, j - 1))
  }

  /** No cell before (i, j) in row-major order, within the first cols columns, reads a missing count. */
  ghost predicate CleanTo(cells: seq<bv8>, ncols: nat, cols: nat, i: nat, j: nat) {
    forall r: nat, c: nat {:trigger NullFree(cells, ncols, r, c)} :: (r < i && c < cols) || (r == i && c < j) ==> NullFree(cells, ncols, r, c)
  }

  /**
   * What the counter computes over the first nrows rows and cols columns:
   * it fails on a read of a missing count anywhere, or when the last cell
   * is no contender; otherwise the count is the number of contender paths
   * from (0, 0) to (nrows - 1, cols - 1).
   */
  ghost function CrumbTotal(cells: seq<bv8>, nrows: nat, ncols: nat, cols: nat): Result<nat>
    requires nrows >= 1 && cols >= 1
  {
    if !CleanTo(cells, ncols, cols, nrows, 0) then Abort(NullCount)
    else if !Contender(cells, ncols, nrows - 1, cols - 1) then Abort(EmptyCorner)
    else Ok(NumPaths(cells, ncols, CrumbMasks, CRUMB_CONTENDER, nrows - 1, cols - 1))
  }

  /** A read of a missing count before row i stays before any later row. */
  lemma CleanMonotone(cells: seq<bv8>, ncols: nat, cols: nat, i: nat, i': nat)
    requires i <= i' && !CleanTo(cells, ncols, cols, i, 0)
    ensures !CleanTo(cells, ncols, cols, i', 0)
  {
    var r: nat, c: nat :| ((r < i && c < cols) || (r == i && c < 0)) && !NullFree(cells, ncols, r, c);
    assert (r < i' && c < cols) || (r == i' && c < 0);
  }

  /** The reference held for cell (r, c) at refs[rbase + c]: its packed count slot, holding its path count, or -1. */
  ghost predicate RefOk(cells: seq<bv8>, ncols: nat, r: nat, c: nat, refs: seq<int>, rbase: nat, counts: seq<int>, cbase: nat)
    requires rbase + c < |refs|
  {
    var ref := refs[rbase + c];
    if Contender(cells, ncols, r, c) then
      && ref == cbase + RowNnz(cells, ncols, r, c) < |counts|
      && counts[ref] == NumPaths(cells, ncols, CrumbMasks, CRUMB_CONTENDER, r, c)
    else ref == -1
  }

  /** The first n references of row r, from rbase on, are right. */
  ghost predicate RowDone(cells: seq<bv8>, ncols: nat, r: nat, n: nat, refs: seq<int>, rbase: nat, counts: seq<int>, cbase: nat)
    requires rbase + n <= |refs|
  {
    forall c :: 0 <= c < n ==> RefOk(cells, ncols, r, c, refs, rbase, counts, cbase)
  }

  /** Writing a count outside the slots of row r's first n contenders keeps RowDone. */
  lemma RowDoneCounts(cells: seq<bv8>, ncols: nat, r: nat, n: nat, refs: seq<int>, rbase: nat,
                      counts: seq<int>, cbase: nat, q: nat, counts': seq<int>)
    requires rbase + n <= |refs| && q < |counts| && |counts'| == |counts|
    requires forall t :: 0 <= t < |counts| && t != q ==> counts'[t] == counts[t]
    requires RowDone(cells, ncols, r, n, refs, rbase, counts, cbase)
    requires q < cbase || q >= cbase + RowNnz(cells, ncols, r, n)
    ensures RowDone(cells, ncols, r, n, refs, rbase, counts', cbase)
  {
    forall c | 0 <= c < n
      ensures RefOk(cells, ncols, r, c, refs, rbase, counts', cbase)
    {
      assert RefOk(cells, ncols, r, c, refs, rbase, counts, cbase);
      if Contender(cells, ncols, r, c) {
        RowNnzMono(cells, ncols, r, c, n);
      }
    }
  }

  /** Writing a reference outside row r's first n references keeps RowDone. */
  lemma RowDoneRefs(cells: seq<bv8>, ncols: nat, r: nat, n: nat, refs: seq<int>, rbase: nat,
                    counts: seq<int>, cbase: nat, q: nat, refs': seq<int>)
    requires rbase + n <= |refs| && q < |refs| && |refs'| == |refs|
    requires forall t :: 0 <= t < |refs| && t != q ==> refs'[t] == refs[t]
    requires RowDone(cells, ncols, r, n, refs, rbase, counts, cbase)
    requires q < rbase || q >= rbase + n
    ensures RowDone(cells, ncols, r, n, refs', rbase, counts, cbase)
  {
    forall c | 0 <= c < n
      ensures RefOk(cells, ncols, r, c, refs', rbase, counts, cbase)
    {
      assert RefOk(cells, ncols, r, c, refs, rbase, counts, cbase);
    }
  }

  lemma RowDoneExtend(cells: seq<bv8>, ncols: nat, r: nat, n: nat, refs: seq<int>, rbase: nat, counts: seq<int>, cbase: nat)
    requires rbase + n < |refs|
    requires RowDone(cells, ncols, r, n, refs, rbase, counts, cbase)
    requires RefOk(cells, ncols, r, n, refs, rbase, counts, cbase)
    ensures RowDone(cells, ncols, r, n + 1, refs, rbase, counts, cbase)
  {
  }

  lemma {:induction false} RowNnzUpTo(cells: seq<bv8>, ncols: nat, i: nat, n: nat, n': nat)
    requires n <= n'
    ensures RowNnz(cells, ncols, i, n) <= RowNnz(cells, ncols, i, n')
    decreases n'
  {
    if n < n' {
      RowNnzUpTo(cells, ncols, i, n, n' - 1);
    }
  }

  /** The slot a contender (i, j) claims lies in row i's half of the counts, past its earlier contenders and clear of row i - 1's. */
  lemma SlotApart(cells: seq<bv8>, nrows: nat, ncols: nat, cols: nat, i: nat, j: nat)
    requires i < nrows && j < cols <= ncols && Contender(cells, ncols, i, j)
    ensures var m, p := MaxNnz(cells, ncols, nrows), Half(i, MaxNnz(cells, ncols, nrows)) + RowNnz(cells, ncols, i, j);
      && p < 2 * m
      && (i > 0 ==> p < Half(i - 1, m) || p >= Half(i - 1, m) + RowNnz(cells, ncols, i - 1, cols))
  {
    var m := MaxNnz(cells, ncols, nrows);
    RowNnzMono(cells, ncols, i, j, ncols);
    assert RowNnz(cells, ncols, i, ncols) <= m;
    if i > 0 {
      RowNnzUpTo(cells, ncols, i - 1, cols, ncols);
      assert RowNnz(cells, ncols, i - 1, ncols) <= m;
    }
  }

  /** C's (i % 2) * n: the start of row i's half of a two-row buffer. */
  function Half(i: nat, n: nat): (h: nat)
    ensures h == if i % 2 == 0 then 0 else n
    ensures i > 0 ==> (i - 1) % 2 * n == n - h
  {
    (i % 2) * n
  }

  /** The count a contender's neighbour contributes, read through its reference; None for the C NULL. */
  method ReadCount(ghost cells: seq<bv8>, ghost ncols: nat, ghost r: nat, c: nat,
                   refs: array<int>, rbase: nat, counts: array<int>, ghost cbase: nat) returns (v: Option<int>)
    requires rbase + c < refs.Length && RefOk(cells, ncols, r, c, refs[..], rbase, counts[..], cbase)
    ensures v == if Contender(cells, ncols, r, c) then Some(NumPaths(cells, ncols, CrumbMasks, CRUMB_CONTENDER, r, c)) else None
  {
    var t := refs[rbase + c];
    if t == -1 {
      return None;
    }
    return Some(counts[t]);
  }

  /** What step d from (i, j) adds to the cell's count: nothing when the cell does not allow it, the neighbour's path count when the neighbour is a contender, None (a read of a missing count) otherwise. */
  ghost function Step(cells: seq<bv8>, ncols: nat, i: nat, j: nat, d: Dir): Option<nat> {
    if !Allows(cells, ncols, CrumbMasks, i, j, d) then Some(0)
    else
      var i', j' := Back(d, true, i), Back(d, false, j);
      if Contender(cells, ncols, i', j') then Some(NumPaths(cells, ncols, CrumbMasks, CRUMB_CONTENDER, i', j')) else None
  }

  /** A contender reads no missing count exactly when each of its steps has a count, and then its path count is their sum. */
  lemma StepSum(cells: seq<bv8>, ncols: nat, i: nat, j: nat)
    requires Contender(cells, ncols, i, j)
    ensures NullFree(cells, ncols, i, j) <==> Step(cells, ncols, i, j, Top).Some? && Step(cells, ncols, i, j, Diag).Some? && Step(cells, ncols, i, j, Left).Some?
    ensures NullFree(cells, ncols, i, j) ==>
      NumPaths(cells, ncols, CrumbMasks, CRUMB_CONTENDER, i, j) == (if i == 0 && j == 0 then 1 else 0) + Step(cells, ncols, i, j, Top).value + Step(cells, ncols, i, j, Diag).value + Step(cells, ncols, i, j, Left).value
  {
  }

  /** One neighbour read of count_solutions: when (i, j) allows step dir, the neighbour's count is added to sum, or None when it has none. */
  method AddStep(ghost cells: seq<bv8>, ghost ncols: nat, cols: nat, ghost m: nat, i: nat, j: nat, x: bv8, dir: Dir,
                 refs: array<int>, counts: array<int>, sum: int) returns (s: Option<int>)
    requires x == At(cells, ncols, i, j)
    requires j < cols && refs.Length == 2 * cols
    requires Ready(cells, ncols, cols, m, i, j, refs[..], counts[..])
    ensures Step(cells, ncols, i, j, dir).None? ==> s.None?
    ensures Step(cells, ncols, i, j, dir).Some? ==> s == Some(sum + Step(cells, ncols, i, j, dir).value)
  {
    if !(Fits(dir, i, j) && x & Bit(CrumbMasks, dir) != 0) {
      return Some(sum);
    }
    var r, c := Back(dir, true, i), Back(dir, false, j);
    ghost var base := Half(r, m);
    assert RefOk(cells, ncols, r, c, refs[..], Half(r, cols), counts[..], base);
    var t := ReadCount(cells, ncols, r, c, refs, (r % 2) * cols, counts, base);
    if t.None? {
      return None;
    }
    return Some(sum + t.value);
  }

  /**
   * The neighbour reads of a contender (i, j), in the order TOP, DIAG,
   * LEFT: None as soon as a pointed-to neighbour has no count, otherwise
   * the sum, which is the cell's path count.
   */
  method SumNeighbours(ghost cells: seq<bv8>, ghost ncols: nat, cols: nat, ghost m: nat, i: nat, j: nat, d: bv8,
                       refs: array<int>, counts: array<int>) returns (s: Option<int>)
    requires d == At(cells, ncols, i, j) && Contender(cells, ncols, i, j)
    requires j < cols && refs.Length == 2 * cols
    requires Ready(cells, ncols, cols, m, i, j, refs[..], counts[..])
    ensures s.None? <==> !NullFree(cells, ncols, i, j)
    ensures s.Some? ==> s.value == NumPaths(cells, ncols, CrumbMasks, CRUMB_CONTENDER, i, j)
  {
    StepSum(cells, ncols, i, j);
    s := AddStep(cells, ncols, cols, m, i, j, d, Top, refs, counts, if i == 0 && j == 0 then 1 else 0);
    if s.None? {
      return;
    }
    s := AddStep(cells, ncols, cols, m, i, j, d, Diag, refs, counts, s.value);
    if s.None? {
      return;
    }
    s := AddStep(cells, ncols, cols, m, i, j, d, Left, refs, counts, s.value);
  }

  /** Before cell (i, j): row i's first j references and all of row i - 1's are right, with m the size of a packed row. */
  ghost predicate Ready(cells: seq<bv8>, ncols: nat, cols: nat, m: nat, i: nat, j: nat, refs: seq<int>, counts: seq<int>)
    requires j <= cols && |refs| == 2 * cols
  {
    && RowDone(cells, ncols, i, j, refs, Half(i, cols), counts, Half(i, m))
    && (i > 0 ==> RowDone(cells, ncols, i - 1, cols, refs, Half(i - 1, cols), counts, Half(i - 1, m)))
  }

  /** Writing the slot that contender (i, j) claims keeps Ready. */
  lemma ReadyCounts(cells: seq<bv8>, nrows: nat, ncols: nat, cols: nat, i: nat, j: nat,
                    refs: seq<int>, counts: seq<int>, q: nat, counts': seq<int>)
    requires i < nrows && j < cols <= ncols && |refs| == 2 * cols && Contender(cells, ncols, i, j)
    requires q == Half(i, MaxNnz(cells, ncols, nrows)) + RowNnz(cells, ncols, i, j)
    requires |counts| == |counts'| == 2 * MaxNnz(cells, ncols, nrows)
    requires forall t :: 0 <= t < |counts| && t != q ==> counts'[t] == counts[t]
    requires Ready(cells, ncols, cols, MaxNnz(cells, ncols, nrows), i, j, refs, counts)
    ensures q < |counts|
    ensures Ready(cells, ncols, cols, MaxNnz(cells, ncols, nrows), i, j, refs, counts')
  {
    var m := MaxNnz(cells, ncols, nrows);
    SlotApart(cells, nrows, ncols, cols, i, j);
    RowNnzUpTo(cells, ncols, i, j, ncols);
    RowDoneCounts(cells, ncols, i, j, refs, Half(i, cols), counts, Half(i, m), q, counts');
    if i > 0 {
      RowDoneCounts(cells, ncols, i - 1, cols, refs, Half(i - 1, cols), counts, Half(i - 1, m), q, counts');
    }
  }

  /** Writing cell (i, j)'s own reference keeps Ready. */
  lemma ReadyRefs(cells: seq<bv8>, ncols: nat, cols: nat, m: nat, i: nat, j: nat,
                  refs: seq<int>, counts: seq<int>, refs': seq<int>)
    requires j < cols && |refs| == |refs'| == 2 * cols
    requires forall t :: 0 <= t < |refs| && t != Half(i, cols) + j ==> refs'[t] == refs[t]
    requires Ready(cells, ncols, cols, m, i, j, refs, counts)
    ensures Ready(cells, ncols, cols, m, i, j, refs', counts)
  {
    RowDoneRefs(cells, ncols, i, j, refs, Half(i, cols), counts, Half(i, m), Half(i, cols) + j, refs');
    if i > 0 {
      RowDoneRefs(cells, ncols, i - 1, cols, refs, Half(i - 1, cols), counts, Half(i - 1, m), Half(i, cols) + j, refs');
    }
  }

  /**
   * One cell of count_solutions: gives a contender the next packed slot,
   * records the reference, and sums the neighbours its bits point to; a
   * missing neighbour count ends the routine.
   */
  method CountCell(cells: seq<bv8>, nrows: nat, ncols: nat, cols: nat, maxNnz: nat, i: nat, j: nat, k: nat,
                   counts: array<int>, refs: array<int>) returns (k': nat, st: Status)
    requires |cells| == nrows * ncols && i < nrows && j < cols <= ncols
    requires maxNnz == MaxNnz(cells, ncols, nrows)
    requires counts.Length == 2 * maxNnz && refs.Length == 2 * cols && counts != refs
    requires k == RowNnz(cells, ncols, i, j)
    requires Ready(cells, ncols, cols, maxNnz, i, j, refs[..], counts[..])
    modifies counts, refs
    ensures st.Aborted? <==> !NullFree(cells, ncols, i, j)
    ensures st.Aborted? ==> st.reason == NullCount
    ensures st.Done? ==> k' == RowNnz(cells, ncols, i, j + 1)
    ensures st.Done? ==> Ready(cells, ncols, cols, maxNnz, i, j + 1, refs[..], counts[..])
  {
    var cur, rrow := Half(i, maxNnz), Half(i, cols);
    EntryInBounds(nrows, ncols, i, j);
    var d := cells[Entry(ncols, i, j)];
    assert d == At(cells, ncols, i, j);
    k' := k;
    var p := -1;
    if d & CRUMB_CONTENDER != 0 {
      p := cur + k;
      SlotApart(cells, nrows, ncols, cols, i, j);
      ghost var c0 := counts[..];
      ReadyCounts(cells, nrows, ncols, cols, i, j, refs[..], c0, p, c0[p := 0]);
      counts[p] := 0;
      k' := k + 1;
    }
    ghost var r0 := refs[..];
    refs[rrow + j] := p;
    ReadyRefs(cells, ncols, cols, maxNnz, i, j, r0, counts[..], refs[..]);
    if p == -1 {
      RowDoneExtend(cells, ncols, i, j, refs[..], rrow, counts[..], cur);
      return k', Done;
    }
    var sum := SumNeighbours(cells, ncols, cols, maxNnz, i, j, d, refs, counts);
    if sum.None? {
      return k', Aborted(NullCount);
    }
    ghost var c1 := counts[..];
    ReadyCounts(cells, nrows, ncols, cols, i, j, refs[..], c1, p, c1[p := sum.value]);
    counts[p] := sum.value;
    RowDoneExtend(cells, ncols, i, j, refs[..], rrow, counts[..], cur);
    return k', Done;
  }

  /** No cell among the first n of row i reads a missing count. */
  ghost predicate RowClean(cells: seq<bv8>, ncols: nat, i: nat, n: nat) {
    forall c {:trigger NullFree(cells, ncols, i, c)} :: 0 <= c < n ==> NullFree(cells, ncols, i, c)
  }

  lemma CleanNextRow(cells: seq<bv8>, ncols: nat, cols: nat, i: nat)
    requires CleanTo(cells, ncols, cols, i, 0)
    ensures CleanTo(cells, ncols, cols, i + 1, 0) <==> RowClean(cells, ncols, i, cols)
  {
    if RowClean(cells, ncols, i, cols) {
      forall r: nat, c: nat | r < i + 1 && c < cols ensures NullFree(cells, ncols, r, c) {
        if r < i {
          assert (r < i && c < cols) || (r == i && c < 0);
        }
      }
    }
  }

  /** The column loop of count_solutions over row i: every contender gets its count, or a missing count ends the routine. */
  method CountRow(cells: seq<bv8>, nrows: nat, ncols: nat, cols: nat, maxNnz: nat, i: nat,
                  counts: array<int>, refs: array<int>) returns (st: Status)
    requires |cells| == nrows * ncols && i < nrows && cols <= ncols
    requires maxNnz == MaxNnz(cells, ncols, nrows)
    requires counts.Length == 2 * maxNnz && refs.Length == 2 * cols && counts != refs
    requires Ready(cells, ncols, cols, maxNnz, i, 0, refs[..], counts[..])
    modifies counts, refs
    ensures st.Aborted? <==> !RowClean(cells, ncols, i, cols)
    ensures st.Aborted? ==> st.reason == NullCount
    ensures st.Done? ==> RowDone(cells, ncols, i, cols, refs[..], Half(i, cols), counts[..], Half(i, maxNnz))
  {
    var k := 0;
    var j := 0;
    while j < cols
      invariant j <= cols && k == RowNnz(cells, ncols, i, j)
      invariant Ready(cells, ncols, cols, maxNnz, i, j, refs[..], counts[..])
      invariant RowClean(cells, ncols, i, j)
    {
      var k', st' := CountCell(cells, nrows, ncols, cols, maxNnz, i, j, k, counts, refs);
      if st'.Aborted? {
        return st';
      }
      k := k';
      j := j + 1;
    }
    return Done;
  }

  /**
   * count_solutions over the first cols columns: the row loop, then the
   * count held for the bottom right cell, or the abort when it has none.
   */
  method Count(mat: CrumbMat, cols: nat) returns (r: Result<nat>)
    requires mat.Valid() && mat.nrows >= 1 && 1 <= cols <= mat.ncols
    ensures r == CrumbTotal(mat.data[..], mat.nrows, mat.ncols, cols)
  {
    var nrows, ncols := mat.nrows, mat.ncols;
    var cells := mat.data[..];
    var maxNnz := MaxRowNnz(mat);
    var counts := new int[2 * maxNnz](_ => 0);
    var refs := new int[2 * cols](_ => -1);
    var i := 0;
    while i < nrows
      invariant i <= nrows && CleanTo(cells, ncols, cols, i, 0)
      invariant i > 0 ==> RowDone(cells, ncols, i - 1, cols, refs[..], Half(i - 1, cols), counts[..], Half(i - 1, maxNnz))
    {
      var st := CountRow(cells, nrows, ncols, cols, maxNnz, i, counts, refs);
      CleanNextRow(cells, ncols, cols, i);
      if st.Aborted? {
        CleanMonotone(cells, ncols, cols, i + 1, nrows);
        return Abort(NullCount);
      }
      i := i + 1;
    }
    r := CornerCount(cells, nrows, ncols, cols, maxNnz, counts, refs);
  }

  /** The end of count_solutions: the count the references give the bottom right cell, or the abort when it has none. */
  method CornerCount(cells: seq<bv8>, nrows: nat, ncols: nat, cols: nat, maxNnz: nat,
                     counts: array<int>, refs: array<int>) returns (r: Result<nat>)
    requires nrows >= 1 && 1 <= cols <= ncols
    requires counts.Length == 2 * maxNnz && refs.Length == 2 * cols
    requires CleanTo(cells, ncols, cols, nrows, 0)
    requires RowDone(cells, ncols, nrows - 1, cols, refs[..], Half(nrows - 1, cols), counts[..], Half(nrows - 1, maxNnz))
    ensures r == CrumbTotal(cells, nrows, ncols, cols)
  {
    var last := Half(nrows - 1, cols) + cols - 1;
    assert RefOk(cells, ncols, nrows - 1, cols - 1, refs[..], Half(nrows - 1, cols), counts[..], Half(nrows - 1, maxNnz));
    var p := refs[last];
    if p == -1 {
      return Abort(EmptyCorner);
    }
    r := Ok(counts[p]);
  }

  /**
   * count_solutions as written: the column bound is read from the number of
   * rows. With no more rows than columns only the first nrows columns are
   * counted, and the count returned is the number of contender paths to
   * cell (nrows - 1, nrows - 1). With more rows than columns the column
   * loop reads cell (i, j) at offset i * ncols + j, running past the end of
   * each row; unless a missing count or a contender slot past the end of
   * the counts faults first, the last row reads past the end of the matrix
   * data. No such run returns a count.
   */
  method CountAsWritten(mat: CrumbMat) returns (r: Result<nat>)
    requires mat.Valid() && mat.nrows >= 1 && mat.ncols >= 1
    ensures mat.nrows <= mat.ncols ==> r == CrumbTotal(mat.data[..], mat.nrows, mat.ncols, mat.nrows)
    ensures mat.nrows <= mat.ncols && r.Ok? ==>
      var ps := Paths(mat.data[..], mat.ncols, CrumbMasks, CRUMB_CONTENDER, mat.nrows - 1, mat.nrows - 1);
      r.value == |ps| && Distinct(ps)
    ensures mat.nrows > mat.ncols ==> r == Abort(PastMatrix)
  {
    if mat.nrows > mat.ncols {
      return Abort(PastMatrix);
    }
    r := Count(mat, mat.nrows);
    PathsCount(mat.data[..], mat.ncols, CrumbMasks, CRUMB_CONTENDER, mat.nrows - 1, mat.nrows - 1);
    PathsDistinct(mat.data[..], mat.ncols, CrumbMasks, CRUMB_CONTENDER, mat.nrows - 1, mat.nrows - 1);
  }

  /**
   * count_solutions with the column bound read from the number of columns:
   * the number of distinct contender paths from the top left to the bottom
   * right cell, or the abort for a missing count or an empty corner.
   */
  method CountSolutions(mat: CrumbMat) returns (r: Result<nat>)
    requires mat.Valid() && mat.nrows >= 1 && mat.ncols >= 1
    ensures r == CrumbTotal(mat.data[..], mat.nrows, mat.ncols, mat.ncols)
    ensures r.Ok? ==>
      var ps := Paths(mat.data[..], mat.ncols, CrumbMasks, CRUMB_CONTENDER, mat.nrows - 1, mat.ncols - 1);
      r.value == |ps| && Distinct(ps)
  {
    r := Count(mat, mat.ncols);
    PathsCount(mat.data[..], mat.ncols, CrumbMasks, CRUMB_CONTENDER, mat.nrows - 1, mat.ncols - 1);
    PathsDistinct(mat.data[..], mat.ncols, CrumbMasks, CRUMB_CONTENDER, mat.nrows - 1, mat.ncols - 1);
  }

  /**
   * A 2 x 3 tableau with two contender paths to its bottom right cell: one
   * diagonal step then one left step, or a left step from (0, 1) after a
   * diagonal one. Row 0: CONTENDER, CONTENDER|LEFT, CONTENDER|LEFT; row 1:
   * CONTENDER|TOP, CONTENDER|DIAG, CONTENDER|DIAG|LEFT.
   */
  const TwoPaths: seq<bv8> := [0x80, 0x84, 0x84, 0x81, 0x82, 0x86]

  /** Counting only nrows = 2 columns of TwoPaths yields 1, the count of cell (1, 1); all three columns yield 2. */
  lemma ColumnBoundFinding()
    ensures CrumbTotal(TwoPaths, 2, 3, 2) == Ok(1)
    ensures CrumbTotal(TwoPaths, 2, 3, 3) == Ok(2)
  {
    forall r: nat, c: nat | r < 2 && c < 3 ensures NullFree(TwoPaths, 3, r, c) {
      assert At(TwoPaths, 3, r, c) == TwoPaths[3 * r + c];
    }
    assert CleanTo(TwoPaths, 3, 2, 2, 0);
    assert CleanTo(TwoPaths, 3, 3, 2, 0);
  }
}
