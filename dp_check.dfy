/**
 * The optimal/canonical judgement of an alignment against a flag tableau
 * (dp_mat_check_alignment in src/dp.c). The alignment is read column by
 * column from its last column backwards while the walk moves from the
 * bottom-right cell towards (0, 0); a column is optimal when the cell
 * allows its direction and canonical when it is the direction the
 * traceback would choose.
 */
module DpCheck {
  import opened Basics
  import opened DpFlags
  import opened Nucleotides
  import opened Traceback

  /** The traceback of src/dp.c: M0 is a top step, M1 a diagonal one, M2 a left one. */
  const DpMasks := Masks(MAX3_M0, MAX3_M1, MAX3_M2)

  /** The two flags the checker reports. */
  datatype Verdict = Verdict(optimal: bool, canonical: bool)

  const UnexpectedColumn := "unexpected alignment column"
  /** Reading an alignment entry before its first column (undefined in the source). */
  const ReadsOutsideAlignment := "reads outside the alignment"
  /** Reading a tableau byte outside the matrix (undefined in the source). */
  const ReadsOutsideTableau := "reads outside the tableau"

  /** The direction an alignment column stands for; None for a column the checker rejects. */
  function Observe(a: int, b: int): (r: Option<Dir>)
    ensures r.Some? ==> (a > -1 <==> Takes(r.value, true)) && (b > -1 <==> Takes(r.value, false))
    ensures IsCode(a) && IsCode(b) ==> (r.None? <==> a == -1 && b == -1)
  {
    if a > -1 && b == -1 then Some(Top)
    else if a > -1 && b > -1 then Some(Diag)
    else if a == -1 && b > -1 then Some(Left)
    else None
  }

  /** A column of codes whose letters are where step d puts them is observed as d. */
  lemma ObserveStep(a: int, b: int, d: Dir)
    requires IsCode(a) && IsCode(b)
    requires (a == -1 <==> !Takes(d, true)) && (b == -1 <==> !Takes(d, false))
    ensures Observe(a, b) == Some(d)
  {
  }

  /**
   * The check from column k of the alignment and cell (i, j), whose byte
   * sits at position e of the row-major data; canonical is the flag so far.
   * The walk stops at (0, 0), or as soon as i and j are both at most 0; a
   * column whose direction the cell does not allow ends it with optimal
   * (and canonical) cleared.
   */
  function CheckFrom(cells: seq<bv8>, ncols: nat, A: seq<int>, B: seq<int>,
                     k: int, i: int, j: int, e: int, canonical: bool): (r: Result<Verdict>)
    ensures (i > 0 || j > 0) && 0 <= k < |A| && k < |B| && A[k] == -1 && B[k] == -1 ==>
      r == Abort(UnexpectedColumn)
    decreases k + 1
  {
    if !(i > 0 || j > 0) then Ok(Verdict(true, canonical))
    else if k < 0 || k >= |A| || k >= |B| then Abort(ReadsOutsideAlignment)
    else
      match Observe(A[k], B[k])
      case None => Abort(UnexpectedColumn)
      case Some(d) =>
        if e < 0 || e >= |cells| then Abort(ReadsOutsideTableau)
        else
          var full := cells[e];
          match Choose(full, DpMasks)
          case None => Abort(LostThread)
          case Some(c) =>
            var canon := canonical && d == c;
            if full & Bit(DpMasks, d) == 0 then Ok(Verdict(false, canon))
            else
              CheckFrom(cells, ncols, A, B, k - 1, i - Gap(d, true), j - Gap(d, false), e - Offset(ncols, d), canon)
  }

  /** 1 when step d consumes a letter of the first (or second) sequence. */
  function Gap(d: Dir, first: bool): nat {
    if Takes(d, first) then 1 else 0
  }

  /** How far back in the row-major data step d moves: ncols up, 1 left, ncols + 1 diagonally. */
  function Offset(ncols: nat, d: Dir): nat {
    match d
    case Top => ncols
    case Diag => ncols + 1
    case Left => 1
  }

  /** The check of an alignment of length len against an nrows x ncols tableau. */
  function Check(cells: seq<bv8>, nrows: nat, ncols: nat, A: seq<int>, B: seq<int>, len: nat): (r: Result<Verdict>)
    ensures r.Ok? && r.value.canonical ==> r.value.optimal
  {
    CheckVerdict(cells, ncols, A, B, len - 1, nrows - 1, ncols - 1, nrows * ncols - 1, true);
    CheckFrom(cells, ncols, A, B, len - 1, nrows - 1, ncols - 1, nrows * ncols - 1, true)
  }

  /**
   * A canonical verdict is also optimal, and canonical can only be lost:
   * a column that the cell does not allow differs from the column the
   * cell chooses, which is allowed.
   */
  lemma {:induction false} CheckVerdict(cells: seq<bv8>, ncols: nat, A: seq<int>, B: seq<int>,
                                        k: int, i: int, j: int, e: int, canonical: bool)
    ensures var r := CheckFrom(cells, ncols, A, B, k, i, j, e, canonical);
      r.Ok? && r.value.canonical ==> canonical && r.value.optimal
    decreases k + 1
  {
    if (i > 0 || j > 0) && 0 <= k < |A| && k < |B| && Observe(A[k], B[k]).Some? && 0 <= e < |cells| {
      var d := Observe(A[k], B[k]).value;
      if Choose(cells[e], DpMasks).Some? && cells[e] & Bit(DpMasks, d) != 0 {
        var c := Choose(cells[e], DpMasks).value;
        CheckVerdict(cells, ncols, A, B, k - 1, i - Gap(d, true), j - Gap(d, false), e - Offset(ncols, d), canonical && d == c);
      }
    }
  }

  /** Moving one cell up, left or diagonally moves the row-major position back by Offset. */
  lemma EntryStep(ncols: nat, i: nat, j: nat, d: Dir)
    requires Fits(d, i, j)
    ensures Entry(ncols, Back(d, true, i), Back(d, false, j)) == Entry(ncols, i, j) - Offset(ncols, d)
  {
    EntryFormula(ncols, i, j);
    EntryFormula(ncols, Back(d, true, i), Back(d, false, j));
  }

  /**
   * Columns that read the traceback's steps backwards from column k pass
   * the check and leave canonical as it was.
   */
  lemma {:induction false} CheckFollowsTrail(cells: seq<bv8>, ncols: nat, A: seq<int>, B: seq<int>,
                                             k: int, i: nat, j: nat, canonical: bool, t: seq<Dir>)
    requires Trail(cells, ncols, DpMasks, i, j) == Ok(t)
    requires |t| <= k + 1 && k < |A| && k < |B|
    requires forall q :: 0 <= q < |t| ==> Observe(A[k - q], B[k - q]) == Some(t[q])
    ensures CheckFrom(cells, ncols, A, B, k, i, j, Entry(ncols, i, j), canonical) == Ok(Verdict(true, canonical))
    decreases i + j
  {
    if i > 0 || j > 0 {
      TrailFirstStep(cells, ncols, DpMasks, i, j, t);
      var d := t[0];
      var i', j' := Back(d, true, i), Back(d, false, j);
      var rest := t[1..];
      assert Observe(A[k], B[k]) == Some(d);
      forall q | 0 <= q < |rest| ensures Observe(A[k - 1 - q], B[k - 1 - q]) == Some(rest[q]) {
        assert rest[q] == t[q + 1];
      }
      CheckFollowsTrail(cells, ncols, A, B, k - 1, i', j', canonical, rest);
      FollowStep(cells, ncols, A, B, k, i, j, canonical, d);
    }
  }

  /** A column read in range, at a cell in range that chooses c and allows d, hands over to the next column. */
  lemma CheckUnfold(cells: seq<bv8>, ncols: nat, A: seq<int>, B: seq<int>,
                    k: int, i: int, j: int, e: int, canonical: bool, d: Dir, c: Dir)
    requires i > 0 || j > 0
    requires 0 <= k < |A| && k < |B| && Observe(A[k], B[k]) == Some(d)
    requires 0 <= e < |cells| && Choose(cells[e], DpMasks) == Some(c) && cells[e] & Bit(DpMasks, d) != 0
    ensures CheckFrom(cells, ncols, A, B, k, i, j, e, canonical)
         == CheckFrom(cells, ncols, A, B, k - 1, i - Gap(d, true), j - Gap(d, false), e - Offset(ncols, d), canonical && d == c)
  {
  }

  /** One column of CheckFollowsTrail: a column that reads as the step the cell chooses passes it. */
  lemma FollowStep(cells: seq<bv8>, ncols: nat, A: seq<int>, B: seq<int>, k: int, i: nat, j: nat, canonical: bool, d: Dir)
    requires i > 0 || j > 0
    requires Fits(d, i, j) && Choose(At(cells, ncols, i, j), DpMasks) == Some(d)
    requires 0 <= k < |A| && k < |B| && Observe(A[k], B[k]) == Some(d)
    requires CheckFrom(cells, ncols, A, B, k - 1, Back(d, true, i), Back(d, false, j),
                       Entry(ncols, Back(d, true, i), Back(d, false, j)), canonical) == Ok(Verdict(true, canonical))
    ensures CheckFrom(cells, ncols, A, B, k, i, j, Entry(ncols, i, j), canonical) == Ok(Verdict(true, canonical))
  {
    var e := Entry(ncols, i, j);
    EntryStep(ncols, i, j, d);
    assert e < |cells| && At(cells, ncols, i, j) == cells[e];
    CheckUnfold(cells, ncols, A, B, k, i, j, e, canonical, d, d);
    assert Back(d, true, i) == i - Gap(d, true) && Back(d, false, j) == j - Gap(d, false);
  }

  /** A check that passes a column has read it, and its cell, and allowed it: it goes on from the next one. */
  lemma CheckPasses(cells: seq<bv8>, ncols: nat, A: seq<int>, B: seq<int>,
                    k: int, i: int, j: int, e: int, canonical: bool)
    requires i > 0 || j > 0
    requires var r := CheckFrom(cells, ncols, A, B, k, i, j, e, canonical); r.Ok? && r.value.optimal
    ensures 0 <= k < |A| && k < |B| && Observe(A[k], B[k]).Some? && 0 <= e < |cells|
    ensures Choose(cells[e], DpMasks).Some?
    ensures var d, c := Observe(A[k], B[k]).value, Choose(cells[e], DpMasks).value;
      CheckFrom(cells, ncols, A, B, k, i, j, e, canonical)
        == CheckFrom(cells, ncols, A, B, k - 1, i - Gap(d, true), j - Gap(d, false), e - Offset(ncols, d), canonical && d == c)
  {
  }

  /**
   * Conversely, a canonical verdict means the columns read backwards from
   * column k are exactly the steps of the traceback.
   */
  lemma {:induction false} CheckCanonicalIsTrail(cells: seq<bv8>, ncols: nat, A: seq<int>, B: seq<int>,
                                                 k: int, i: nat, j: nat, canonical: bool, t: seq<Dir>)
    requires Trail(cells, ncols, DpMasks, i, j) == Ok(t)
    requires CheckFrom(cells, ncols, A, B, k, i, j, Entry(ncols, i, j), canonical) == Ok(Verdict(true, true))
    ensures |t| > 0 ==> |t| <= k + 1 && k < |A| && k < |B|
    ensures forall q :: 0 <= q < |t| ==> Observe(A[k - q], B[k - q]) == Some(t[q])
    decreases i + j
  {
    if i > 0 || j > 0 {
      TrailFirstStep(cells, ncols, DpMasks, i, j, t);
      var d := t[0];
      CanonicalStep(cells, ncols, A, B, k, i, j, canonical, d);
      var rest := t[1..];
      CheckCanonicalIsTrail(cells, ncols, A, B, k - 1, Back(d, true, i), Back(d, false, j), canonical, rest);
      forall q | 0 <= q < |t| ensures Observe(A[k - q], B[k - q]) == Some(t[q]) {
        if q > 0 {
          assert t[q] == rest[q - 1];
        }
      }
    }
  }

  /** One column of CheckCanonicalIsTrail: a canonical verdict reads the step the cell chooses and goes on from where it leads. */
  lemma CanonicalStep(cells: seq<bv8>, ncols: nat, A: seq<int>, B: seq<int>, k: int, i: nat, j: nat, canonical: bool, d: Dir)
    requires i > 0 || j > 0
    requires Fits(d, i, j) && Choose(At(cells, ncols, i, j), DpMasks) == Some(d)
    requires CheckFrom(cells, ncols, A, B, k, i, j, Entry(ncols, i, j), canonical) == Ok(Verdict(true, true))
    ensures 0 <= k < |A| && k < |B| && Observe(A[k], B[k]) == Some(d)
    ensures CheckFrom(cells, ncols, A, B, k - 1, Back(d, true, i), Back(d, false, j),
                      Entry(ncols, Back(d, true, i), Back(d, false, j)), canonical) == Ok(Verdict(true, true))
  {
    var e := Entry(ncols, i, j);
    CheckPasses(cells, ncols, A, B, k, i, j, e, canonical);
    var o := Observe(A[k], B[k]).value;
    assert At(cells, ncols, i, j) == cells[e];
    CheckVerdict(cells, ncols, A, B, k - 1, i - Gap(o, true), j - Gap(o, false), e - Offset(ncols, o), canonical && o == d);
    assert o == d;
    EntryStep(ncols, i, j, d);
    assert Back(d, true, i) == i - Gap(d, true) && Back(d, false, j) == j - Gap(d, false);
  }

  /** Codes v stand, read backwards, for the steps t: -1 exactly where a step leaves a gap in this row. */
  ghost predicate GapsOf(v: seq<int>, t: seq<Dir>, first: bool) {
    |v| == |t| && forall q :: 0 <= q < |t| ==> IsCode(v[|t| - 1 - q]) && (v[|t| - 1 - q] == -1 <==> !Takes(t[q], first))
  }

  /** A traceback row printed in forward order reads back as codes whose gaps are where its steps put them. */
  lemma EncodedRow(s: seq<int>, t: seq<Dir>, n: nat, first: bool, w: seq<char>)
    requires Count(t, first) <= n <= |s| && AllBases(s)
    requires w == Reverse(Row(s, t, n, first))
    ensures Encode(w).Some? && GapsOf(Encode(w).value, t, first)
  {
    var r := Row(s, t, n, first);
    forall x | 0 <= x < |t| ensures Code(w[x]).Some? {
      ReverseAt(r, x);
      RowGaps(s, t, n, first, |t| - 1 - x);
    }
    var v := Encode(w).value;
    forall q | 0 <= q < |t| ensures IsCode(v[|t| - 1 - q]) && (v[|t| - 1 - q] == -1 <==> !Takes(t[q], first)) {
      ReverseAt(r, |t| - 1 - q);
      RowGaps(s, t, n, first, q);
    }
  }

  /**
   * The alignment the traceback prints (both rows, read back as codes)
   * is judged optimal and canonical against the same tableau.
   */
  lemma TracebackIsCanonical(cells: seq<bv8>, nrows: nat, ncols: nat, a: seq<int>, b: seq<int>, t: seq<Dir>,
                             sa: seq<char>, sb: seq<char>)
    requires nrows >= 1 && ncols >= 1
    requires nrows - 1 <= |a| && AllBases(a) && ncols - 1 <= |b| && AllBases(b)
    requires Trail(cells, ncols, DpMasks, nrows - 1, ncols - 1) == Ok(t)
    requires sa == Reverse(Row(a, t, nrows - 1, true)) && sb == Reverse(Row(b, t, ncols - 1, false))
    ensures Encode(sa).Some? && Encode(sb).Some?
    ensures Check(cells, nrows, ncols, Encode(sa).value, Encode(sb).value, |t|) == Ok(Verdict(true, true))
  {
    var A, B := EncodedRows(a, b, t, nrows - 1, ncols - 1, sa, sb);
    TrailPasses(cells, nrows, ncols, A, B, t);
  }

  /** Both printed rows read back as codes whose columns, read backwards, are the steps t. */
  lemma EncodedRows(a: seq<int>, b: seq<int>, t: seq<Dir>, n: nat, m: nat, sa: seq<char>, sb: seq<char>)
    returns (A: seq<int>, B: seq<int>)
    requires Count(t, true) <= n <= |a| && AllBases(a) && Count(t, false) <= m <= |b| && AllBases(b)
    requires sa == Reverse(Row(a, t, n, true)) && sb == Reverse(Row(b, t, m, false))
    ensures Encode(sa) == Some(A) && Encode(sb) == Some(B) && |t| <= |A| && |t| <= |B|
    ensures forall q :: 0 <= q < |t| ==> Observe(A[|t| - 1 - q], B[|t| - 1 - q]) == Some(t[q])
  {
    EncodedRow(a, t, n, true, sa);
    EncodedRow(b, t, m, false, sb);
    A, B := Encode(sa).value, Encode(sb).value;
    ObserveColumns(A, B, t);
  }

  /** Rows of codes with gaps exactly where the steps t leave them read, backwards, as t. */
  lemma ObserveColumns(A: seq<int>, B: seq<int>, t: seq<Dir>)
    requires GapsOf(A, t, true) && GapsOf(B, t, false)
    ensures forall q :: 0 <= q < |t| ==> Observe(A[|t| - 1 - q], B[|t| - 1 - q]) == Some(t[q])
  {
    forall q | 0 <= q < |t| ensures Observe(A[|t| - 1 - q], B[|t| - 1 - q]) == Some(t[q]) {
      ObserveStep(A[|t| - 1 - q], B[|t| - 1 - q], t[q]);
    }
  }

  /** An alignment whose columns, read backwards, are the traceback's steps is optimal and canonical. */
  lemma TrailPasses(cells: seq<bv8>, nrows: nat, ncols: nat, A: seq<int>, B: seq<int>, t: seq<Dir>)
    requires nrows >= 1 && ncols >= 1
    requires Trail(cells, ncols, DpMasks, nrows - 1, ncols - 1) == Ok(t)
    requires |t| <= |A| && |t| <= |B|
    requires forall q :: 0 <= q < |t| ==> Observe(A[|t| - 1 - q], B[|t| - 1 - q]) == Some(t[q])
    ensures Check(cells, nrows, ncols, A, B, |t|) == Ok(Verdict(true, true))
  {
    CheckFollowsTrail(cells, ncols, A, B, |t| - 1, nrows - 1, ncols - 1, true, t);
    CornerEntry(nrows, ncols);
  }

  /** The bottom-right cell is the last byte of the data. */
  lemma CornerEntry(nrows: nat, ncols: nat)
    requires nrows >= 1 && ncols >= 1
    ensures Entry(ncols, nrows - 1, ncols - 1) == nrows * ncols - 1
  {
    EntryFormula(ncols, nrows - 1, ncols - 1);
  }
}
