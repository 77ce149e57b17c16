/**
 * The breadcrumb tableau of breadcrumbs.c: one byte per cell whose low
 * three bits say which step the older traceback may take from that cell.
 */
module Breadcrumbs {
  import opened Basics
  import opened DpFlags
  import opened Traceback

  /** Traceback directions for the actual alignment. */
  const CRUMB_TOP: bv8 := 0x01
  const CRUMB_DIAG: bv8 := 0x02
  const CRUMB_LEFT: bv8 := 0x04
  /** Directions for information propagation. */
  const CRUMB_DIAG2: bv8 := 0x08
  const CRUMB_LEFT2: bv8 := 0x10
  /** Whether max{m1, m2} or max{m0, m1, m2} is requested for the cell. */
  const CRUMB_WANT2: bv8 := 0x20
  const CRUMB_WANT3: bv8 := 0x40
  const CRUMB_CONTENDER: bv8 := 0x80

  /** The breadcrumb traceback tests TOP, then DIAG, then LEFT. */
  const CrumbMasks := Masks(CRUMB_TOP, CRUMB_DIAG, CRUMB_LEFT)

  /** calloc of n characters. */
  method Zeroed(n: nat) returns (s: array<char>)
    ensures fresh(s) && s.Length == n && s[..] == seq(n, _ => '\0')
  {
    s := new char[n](_ => '\0');
  }

  /** The traceback over the cells of a breadcrumb tableau into two fresh zeroed buffers. */
  method CrumbTraceback(cells: seq<bv8>, nrows: nat, ncols: nat, a: seq<int>, b: seq<int>)
    returns (sa: array<char>, sb: array<char>, r: Result<nat>)
    requires nrows >= 1 && ncols >= 1 && |cells| == nrows * ncols
    requires nrows - 1 <= |a| && AllBases(a) && ncols - 1 <= |b| && AllBases(b)
    ensures fresh(sa) && fresh(sb) && sa.Length == sb.Length == nrows + ncols
    ensures Traced(cells, nrows, ncols, CrumbMasks, a, b, r, sa[..], sb[..])
    ensures r.Ok? ==> forall k :: r.value <= k < sa.Length ==> sa[k] == '\0'
    ensures r.Ok? ==> forall k :: r.value <= k < sb.Length ==> sb[k] == '\0'
  {
    var n := nrows + ncols;
    sa := Zeroed(n);
    sb := Zeroed(n);
    r := RunTraceback(cells, nrows, ncols, CrumbMasks, a, b, sa, sb);
  }

  class CrumbMat {
    var data: array<bv8>
    var nrows: nat
    var ncols: nat

    ghost predicate Valid()
      reads this
    {
      data.Length == nrows * ncols
    }

    /** breadcrumb_mat_init: a zeroed nrows x ncols tableau. */
    constructor Init(nrows: nat, ncols: nat)
      ensures Valid() && fresh(data)
      ensures this.nrows == nrows && this.ncols == ncols
      ensures forall t :: 0 <= t < data.Length ==> data[t] == 0
    {
      data := new bv8[nrows * ncols](_ => 0);
      this.nrows := nrows;
      this.ncols := ncols;
    }

    /**
     * breadcrumb_mat_get_alignment: the traceback into two freshly zeroed
     * buffers of nrows + ncols characters, reversed in place at the end.
     * The buffers are longer than any alignment the walk can write, so
     * both rows stay NUL-terminated.
     */
    method GetAlignment(a: seq<int>, b: seq<int>) returns (sa: array<char>, sb: array<char>, r: Result<nat>)
      requires Valid() && nrows >= 1 && ncols >= 1
      requires nrows - 1 <= |a| && AllBases(a) && ncols - 1 <= |b| && AllBases(b)
      ensures fresh(sa) && fresh(sb) && sa.Length == sb.Length == nrows + ncols
      ensures Traced(data[..], nrows, ncols, CrumbMasks, a, b, r, sa[..], sb[..])
      ensures r.Ok? ==> forall k :: r.value <= k < sa.Length ==> sa[k] == '\0'
      ensures r.Ok? ==> forall k :: r.value <= k < sb.Length ==> sb[k] == '\0'
    {
      sa, sb, r := CrumbTraceback(data[..], nrows, ncols, a, b);
    }
  }
}
