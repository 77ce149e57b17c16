/**
 * The byte-per-cell tableau of src/dp.c (dp_mat_t) and its operations:
 * init, set, the traceback, the backward sweep and the alignment checker.
 */
module DpMatrix {
  import opened Basics
  import opened DpFlags
  import opened Traceback
  import opened DpCheck
  import opened DpBackward

  /** The cells after the clearing pass has reached (i, j) in row-major order. */
  ghost predicate ClearedTo(s: seq<bv8>, s0: seq<bv8>, nrows: nat, ncols: nat, i: nat, j: nat) {
    forall r: nat, c: nat {:trigger At(s, ncols, r, c)} :: r < nrows && c < ncols ==>
      At(s, ncols, r, c) == if r < i || (r == i && c < j) then At(s0, ncols, r, c) & !Recomputed else At(s0, ncols, r, c)
  }

  /** The cells after the sweep has reached (i, j) going backwards: later cells are final, the others as cleared. */
  ghost predicate SweptTo(s: seq<bv8>, s0: seq<bv8>, nrows: nat, ncols: nat, i: int, j: int) {
    forall r: nat, c: nat {:trigger At(s, ncols, r, c)} :: r < nrows && c < ncols ==>
      At(s, ncols, r, c) == if r > i || (r == i && c > j) then BackCell(s0, nrows, ncols, r, c) else Base(s0, nrows, ncols, r, c)
  }

  /** Writing x at (i, j) changes At at (i, j) only. */
  lemma WriteCell(s: seq<bv8>, nrows: nat, ncols: nat, i: nat, j: nat, x: bv8)
    requires |s| == nrows * ncols && i < nrows && j < ncols
    ensures Entry(ncols, i, j) < |s|
    ensures forall r: nat, c: nat {:trigger At(s[Entry(ncols, i, j) := x], ncols, r, c)} :: r < nrows && c < ncols ==>
      At(s[Entry(ncols, i, j) := x], ncols, r, c) == if r == i && c == j then x else At(s, ncols, r, c)
  {
    EntryInBounds(nrows, ncols, i, j);
    forall r: nat, c: nat | r < nrows && c < ncols
      ensures At(s[Entry(ncols, i, j) := x], ncols, r, c) == if r == i && c == j then x else At(s, ncols, r, c)
    {
      EntryInBounds(nrows, ncols, r, c);
      if Entry(ncols, r, c) == Entry(ncols, i, j) {
        EntryInjective(ncols, r, c, i, j);
      }
    }
  }

  lemma ClearStep(s: seq<bv8>, s0: seq<bv8>, nrows: nat, ncols: nat, i: nat, j: nat)
    requires |s| == nrows * ncols && |s0| == nrows * ncols && i < nrows && j < ncols
    requires ClearedTo(s, s0, nrows, ncols, i, j)
    ensures Entry(ncols, i, j) < |s|
    ensures ClearedTo(s[Entry(ncols, i, j) := s[Entry(ncols, i, j)] & !Recomputed], s0, nrows, ncols, i, j + 1)
  {
    EntryInBounds(nrows, ncols, i, j);
    assert At(s, ncols, i, j) == s[Entry(ncols, i, j)];
    WriteCell(s, nrows, ncols, i, j, s[Entry(ncols, i, j)] & !Recomputed);
  }

  lemma ClearedNextRow(s: seq<bv8>, s0: seq<bv8>, nrows: nat, ncols: nat, i: nat)
    requires ClearedTo(s, s0, nrows, ncols, i, ncols)
    ensures ClearedTo(s, s0, nrows, ncols, i + 1, 0)
  {
  }

  lemma SweptNextRow(s: seq<bv8>, s0: seq<bv8>, nrows: nat, ncols: nat, i: int)
    requires SweptTo(s, s0, nrows, ncols, i, -1)
    ensures SweptTo(s, s0, nrows, ncols, i - 1, ncols - 1)
  {
  }

  /** After clearing, the corner gets MAX3 and TRACE: every cell is as Base says and none is final yet. */
  lemma SweepStart(s: seq<bv8>, s0: seq<bv8>, nrows: nat, ncols: nat)
    requires nrows >= 1 && ncols >= 1 && |s| == nrows * ncols && |s0| == nrows * ncols
    requires ClearedTo(s, s0, nrows, ncols, nrows, 0)
    ensures Entry(ncols, nrows - 1, ncols - 1) < |s|
    ensures var e := Entry(ncols, nrows - 1, ncols - 1);
      SweptTo(s[e := s[e] | MAX3 | TRACE], s0, nrows, ncols, nrows - 1, ncols - 1)
  {
    var e := Entry(ncols, nrows - 1, ncols - 1);
    EntryInBounds(nrows, ncols, nrows - 1, ncols - 1);
    var x := s[e] | MAX3 | TRACE;
    assert At(s, ncols, nrows - 1, ncols - 1) == s[e];
    WriteCell(s, nrows, ncols, nrows - 1, ncols - 1, x);
    forall r: nat, c: nat | r < nrows && c < ncols
      ensures At(s[e := x], ncols, r, c) == Base(s0, nrows, ncols, r, c)
    {
      assert At(s, ncols, r, c) == At(s0, ncols, r, c) & !Recomputed;
    }
  }

  lemma SweepStep(s: seq<bv8>, s0: seq<bv8>, nrows: nat, ncols: nat, i: nat, j: nat, x: bv8)
    requires |s| == nrows * ncols && i < nrows && j < ncols
    requires SweptTo(s, s0, nrows, ncols, i, j) && x == BackCell(s0, nrows, ncols, i, j)
    ensures Entry(ncols, i, j) < |s|
    ensures SweptTo(s[Entry(ncols, i, j) := x], s0, nrows, ncols, i, j - 1)
  {
    WriteCell(s, nrows, ncols, i, j, x);
  }

  /** What one step of the sweep reads: its own cleared byte and the final bytes of the neighbours after it. */
  lemma SweepReads(s: seq<bv8>, s0: seq<bv8>, nrows: nat, ncols: nat, i: nat, j: nat)
    requires |s| == nrows * ncols && i < nrows && j < ncols
    requires SweptTo(s, s0, nrows, ncols, i, j)
    ensures Entry(ncols, i, j) < |s| && s[Entry(ncols, i, j)] == Base(s0, nrows, ncols, i, j)
    ensures j < ncols - 1 ==> Entry(ncols, i, j + 1) < |s| && s[Entry(ncols, i, j + 1)] == BackCell(s0, nrows, ncols, i, j + 1)
    ensures i < nrows - 1 && j < ncols - 1 ==>
      Entry(ncols, i + 1, j + 1) < |s| && s[Entry(ncols, i + 1, j + 1)] == BackCell(s0, nrows, ncols, i + 1, j + 1)
    ensures i < nrows - 1 ==> Entry(ncols, i + 1, j) < |s| && s[Entry(ncols, i + 1, j)] == BackCell(s0, nrows, ncols, i + 1, j)
    ensures BackCell(s0, nrows, ncols, i, j) == Base(s0, nrows, ncols, i, j)
      | (if j < ncols - 1 then FromRight(BackCell(s0, nrows, ncols, i, j + 1)) else 0)
      | (if i < nrows - 1 && j < ncols - 1 then FromDiag(BackCell(s0, nrows, ncols, i + 1, j + 1)) else 0)
      | (if i < nrows - 1 then FromBelow(BackCell(s0, nrows, ncols, i + 1, j)) else 0)
  {
    EntryInBounds(nrows, ncols, i, j);
    assert At(s, ncols, i, j) == s[Entry(ncols, i, j)];
    if j < ncols - 1 {
      EntryInBounds(nrows, ncols, i, j + 1);
      assert At(s, ncols, i, j + 1) == s[Entry(ncols, i, j + 1)];
    }
    if i < nrows - 1 && j < ncols - 1 {
      EntryInBounds(nrows, ncols, i + 1, j + 1);
      assert At(s, ncols, i + 1, j + 1) == s[Entry(ncols, i + 1, j + 1)];
    }
    if i < nrows - 1 {
      EntryInBounds(nrows, ncols, i + 1, j);
      assert At(s, ncols, i + 1, j) == s[Entry(ncols, i + 1, j)];
    }
  }

  /** dp_mat_entry: the position of cell (i, j) computed as the source does, for any (possibly negative) i and j. */
  function Flat(ncols: nat, i: int, j: int): int {
    i * ncols + j
  }

  lemma FlatStep(ncols: nat, i: int, j: int, d: Dir)
    ensures Flat(ncols, i - Gap(d, true), j - Gap(d, false)) == Flat(ncols, i, j) - Offset(ncols, d)
  {
    assert (i - 1) * ncols == i * ncols - ncols;
  }

  class DpMat {
    var data: array<bv8>
    var nrows: nat
    var ncols: nat

    ghost predicate Valid()
      reads this
    {
      data.Length == nrows * ncols
    }

    /** dp_mat_init: every cell starts with all eight flags set. */
    constructor Init(nrows: nat, ncols: nat)
      ensures Valid() && fresh(data)
      ensures this.nrows == nrows && this.ncols == ncols
      ensures forall t :: 0 <= t < data.Length ==> data[t] == 0xFF
    {
      var n := nrows * ncols;
      var d := new bv8[n];
      var i := 0;
      while i < n
        invariant 0 <= i <= n
        invariant forall t :: 0 <= t < i ==> d[t] == 0xFF
      {
        d[i] := 0xFF;
        i := i + 1;
      }
      this.data := d;
      this.nrows := nrows;
      this.ncols := ncols;
    }

    /** dp_mat_set: aborts on a dimension mismatch, otherwise copies every byte of src. */
    method Set(src: DpMat) returns (st: Status)
      requires Valid() && src.Valid()
      modifies data
      ensures st.Aborted? <==> src.nrows != nrows || src.ncols != ncols
      ensures st.Done? ==> data[..] == old(src.data[..])
      ensures st.Aborted? ==> data[..] == old(data[..])
    {
      if nrows != src.nrows || ncols != src.ncols {
        return Aborted("traceback table dimensions mismatch");
      }
      forall t | 0 <= t < data.Length {
        data[t] := src.data[t];
      }
      return Done;
    }

    /**
     * dp_mat_get_alignment: the traceback through the MAX3_M0/M1/M2 bits,
     * writing the two rows of the alignment into sa and sb.
     */
    method GetAlignment(a: seq<int>, b: seq<int>, sa: array<char>, sb: array<char>) returns (r: Result<nat>)
      requires Valid() && nrows >= 1 && ncols >= 1
      requires nrows - 1 <= |a| && AllBases(a) && ncols - 1 <= |b| && AllBases(b)
      requires sa.Length >= nrows + ncols - 2 && sb.Length >= nrows + ncols - 2 && sa != sb
      requires data as object != sa && data as object != sb
      modifies sa, sb
      ensures Traced(data[..], nrows, ncols, DpMasks, a, b, r, sa[..], sb[..])
      ensures r.Ok? ==> sa[r.value..] == old(sa[r.value..]) && sb[r.value..] == old(sb[r.value..])
    {
      var cells := data[..];
      r := RunTraceback(cells, nrows, ncols, DpMasks, a, b, sa, sb);
      assert data[..] == cells;
    }

    /**
     * One column of dp_mat_check_alignment: the check either ends at column
     * k (stop holds its outcome) or goes on to column k - 1 one step d
     * back in the tableau, with canon recording whether the step was the
     * one the traceback chooses.
     */
    method CheckColumn(ghost cells: seq<bv8>, A: seq<int>, B: seq<int>, k: int, i: int, j: int, e: int, canonical: bool)
      returns (stop: Option<Result<Verdict>>, d: Dir, canon: bool)
      requires Valid() && cells == data[..] && (i > 0 || j > 0)
      ensures stop.Some? ==> stop.value == CheckFrom(cells, ncols, A, B, k, i, j, e, canonical)
      ensures stop.None? ==> (k >= 0 && CheckFrom(cells, ncols, A, B, k, i, j, e, canonical)
        == CheckFrom(cells, ncols, A, B, k - 1, i - Gap(d, true), j - Gap(d, false), e - Offset(ncols, d), canon))
    {
      d, canon := Top, canonical;
      if k < 0 || k >= |A| || k >= |B| {
        return Some(Abort(ReadsOutsideAlignment)), d, canon;
      }
      var observed := Observe(A[k], B[k]);
      if observed.None? {
        return Some(Abort(UnexpectedColumn)), d, canon;
      }
      d := observed.value;
      if e < 0 || e >= data.Length {
        return Some(Abort(ReadsOutsideTableau)), d, canon;
      }
      var full := data[e];
      assert full == cells[e];
      var choice := Choose(full, DpMasks);
      if choice.None? {
        return Some(Abort(LostThread)), d, canon;
      }
      canon := canonical && d == choice.value;
      if full & Bit(DpMasks, d) == 0 {
        return Some(Ok(Verdict(false, canon))), d, canon;
      }
      CheckUnfold(cells, ncols, A, B, k, i, j, e, canonical, d, choice.value);
      stop := None;
    }

    /**
     * dp_mat_check_alignment: walks the alignment from its last column and
     * the tableau from its bottom-right cell, and reports whether every
     * column was allowed (optimal) and was the one the traceback chooses
     * (canonical).
     */
    method CheckAlignment(A: seq<int>, B: seq<int>, len: nat) returns (r: Result<Verdict>)
      requires Valid()
      ensures r == Check(data[..], nrows, ncols, A, B, len)
    {
      ghost var cells := data[..];
      ghost var goal := Check(cells, nrows, ncols, A, B, len);
      var i: int, j: int := nrows - 1, ncols - 1;
      var k: int := len - 1;
      var canonical := true;
      assert Flat(ncols, i, j) == nrows * ncols - 1;
      while i > 0 || j > 0
        invariant CheckFrom(cells, ncols, A, B, k, i, j, Flat(ncols, i, j), canonical) == goal
        decreases k + 1
      {
        var stop, d, canon := CheckColumn(cells, A, B, k, i, j, Flat(ncols, i, j), canonical);
        if stop.Some? {
          return stop.value;
        }
        FlatStep(ncols, i, j, d);
        i, j, k, canonical := i - Gap(d, true), j - Gap(d, false), k - 1, canon;
      }
      return Ok(Verdict(true, canonical));
    }

    /**
     * dp_mat_backward: clears MAX3, TRACE and MAX2 everywhere, sets MAX3 and
     * TRACE on the bottom-right cell, then sweeps the cells in reverse
     * row-major order, each taking bits from the cells to its right, lower
     * right and below.
     */
    method Backward()
      requires Valid() && nrows >= 1 && ncols >= 1
      modifies data
      ensures SweptFrom(data[..], old(data[..]), nrows, ncols)
    {
      ghost var s0 := data[..];
      ClearFlags();
      SweepStart(data[..], s0, nrows, ncols);
      var corner := Entry(ncols, nrows - 1, ncols - 1);
      data[corner] := data[corner] | MAX3 | TRACE;
      var r: int := nrows - 1;
      while r >= 0
        invariant -1 <= r < nrows
        invariant SweptTo(data[..], s0, nrows, ncols, r, ncols - 1)
      {
        SweepRow(s0, r);
        r := r - 1;
      }
    }

    /** The clearing pass of dp_mat_backward: drops MAX3, TRACE and MAX2 from every cell. */
    method ClearFlags()
      requires Valid()
      modifies data
      ensures ClearedTo(data[..], old(data[..]), nrows, ncols, nrows, 0)
    {
      ghost var s0 := data[..];
      var i := 0;
      while i < nrows
        invariant 0 <= i <= nrows
        invariant ClearedTo(data[..], s0, nrows, ncols, i, 0)
      {
        var j := 0;
        while j < ncols
          invariant 0 <= j <= ncols
          invariant ClearedTo(data[..], s0, nrows, ncols, i, j)
        {
          ClearStep(data[..], s0, nrows, ncols, i, j);
          var e := Entry(ncols, i, j);
          data[e] := data[e] & !Recomputed;
          j := j + 1;
        }
        ClearedNextRow(data[..], s0, nrows, ncols, i);
        i := i + 1;
      }
    }

    /** One row of the sweep, from its last column down to its first. */
    method SweepRow(ghost s0: seq<bv8>, i: nat)
      requires Valid() && i < nrows
      requires SweptTo(data[..], s0, nrows, ncols, i, ncols - 1)
      modifies data
      ensures SweptTo(data[..], s0, nrows, ncols, i - 1, ncols - 1)
    {
      var c: int := ncols - 1;
      while c >= 0
        invariant -1 <= c < ncols
        invariant SweptTo(data[..], s0, nrows, ncols, i, c)
      {
        SweepCell(s0, i, c);
        c := c - 1;
      }
      SweptNextRow(data[..], s0, nrows, ncols, i);
    }

    /** One cell of the sweep: reads its finished neighbours and stores its final byte. */
    method SweepCell(ghost s0: seq<bv8>, i: nat, j: nat)
      requires Valid() && i < nrows && j < ncols
      requires SweptTo(data[..], s0, nrows, ncols, i, j)
      modifies data
      ensures SweptTo(data[..], s0, nrows, ncols, i, j - 1)
    {
      ghost var s := data[..];
      SweepReads(s, s0, nrows, ncols, i, j);
      var e := Entry(ncols, i, j);
      var x := data[e];
      if j < ncols - 1 {
        x := x | FromRight(data[Entry(ncols, i, j + 1)]);
      }
      if i < nrows - 1 && j < ncols - 1 {
        x := x | FromDiag(data[Entry(ncols, i + 1, j + 1)]);
      }
      if i < nrows - 1 {
        x := x | FromBelow(data[Entry(ncols, i + 1, j)]);
      }
      SweepStep(s, s0, nrows, ncols, i, j, x);
      data[e] := x;
    }
  }
}
