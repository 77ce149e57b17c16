/**
 * The per-cell flag byte of the dynamic-programming tableau (src/dp.h).
 *
 * MAX3 is the maximum of the three per-cell values m0, m1, m2 and MAX2 the
 * maximum of m1 and m2. MAX3/MAX2 say whether that maximum is still of
 * interest, MAX3_Mk/MAX2_Mk which of the values are in the running for it,
 * and TRACE whether the cell can lie on an optimal traceback path.
 */
module DpFlags {

  const MAX3: bv8 := 0x01
  const TRACE: bv8 := 0x02
  const MAX3_M0: bv8 := 0x04
  const MAX3_M1: bv8 := 0x08
  const MAX3_M2: bv8 := 0x10
  const MAX2: bv8 := 0x20
  const MAX2_M1: bv8 := 0x40
  const MAX2_M2: bv8 := 0x80

  /** The eight flags in declaration order. */
  const AllFlags: seq<bv8> := [MAX3, TRACE, MAX3_M0, MAX3_M1, MAX3_M2, MAX2, MAX2_M1, MAX2_M2]

  predicate Has(x: bv8, flag: bv8) {
    x & flag != 0
  }

  /** The eight flags are distinct single bits that together fill the byte. */
  lemma FlagsFillOneByte()
    ensures forall k :: 0 <= k < 8 ==> AllFlags[k] == (1 as bv8) << k
    ensures forall k, l :: 0 <= k < l < 8 ==> AllFlags[k] & AllFlags[l] == 0
    ensures MAX3 | TRACE | MAX3_M0 | MAX3_M1 | MAX3_M2 | MAX2 | MAX2_M1 | MAX2_M2 == 0xFF
  {
  }

  /** m0 needs evaluating exactly when max3 is of interest and m0 competes for it. */
  predicate M0Interesting(x: bv8): (b: bool)
    ensures b <==> x & 0x05 == 0x05
  {
    Has(x, MAX3) && Has(x, MAX3_M0)
  }

  /** m1 needs evaluating when it competes for an interesting max3 or max2. */
  predicate M1Interesting(x: bv8): (b: bool)
    ensures b <==> x & 0x09 == 0x09 || x & 0x60 == 0x60
  {
    (Has(x, MAX3) && Has(x, MAX3_M1)) || (Has(x, MAX2) && Has(x, MAX2_M1))
  }

  /** m2 needs evaluating when it competes for an interesting max3 or max2. */
  predicate M2Interesting(x: bv8): (b: bool)
    ensures b <==> x & 0x11 == 0x11 || x & 0xA0 == 0xA0
  {
    (Has(x, MAX3) && Has(x, MAX3_M2)) || (Has(x, MAX2) && Has(x, MAX2_M2))
  }

  /**
   * Row-major position of cell (i, j) in a tableau with ncols columns: row
   * i starts ncols entries after row i - 1. EntryFormula gives the closed
   * form; keeping the product out of the definition keeps callers' proofs
   * linear.
   */
  function Entry(ncols: nat, i: nat, j: nat): nat {
    if i == 0 then j else Entry(ncols, i - 1, j) + ncols
  }

  lemma {:induction false} EntryFormula(ncols: nat, i: nat, j: nat)
    ensures Entry(ncols, i, j) == i * ncols + j
  {
    if i > 0 {
      EntryFormula(ncols, i - 1, j);
    }
  }

  /** The flag byte of cell (i, j); 0 outside the data (never read there). */
  function At(cells: seq<bv8>, ncols: nat, i: nat, j: nat): bv8 {
    if Entry(ncols, i, j) < |cells| then cells[Entry(ncols, i, j)] else 0
  }

  lemma EntryInBounds(nrows: nat, ncols: nat, i: nat, j: nat)
    requires i < nrows && j < ncols
    ensures Entry(ncols, i, j) < nrows * ncols
  {
    EntryFormula(ncols, i, j);
    calc {
      Entry(ncols, i, j);
      < i * ncols + ncols;
      == (i + 1) * ncols;
      <= { MulMonotone(i + 1, nrows, ncols); } nrows * ncols;
    }
  }

  lemma {:induction false} EntryInjective(ncols: nat, i: nat, j: nat, i': nat, j': nat)
    requires j < ncols && j' < ncols
    requires Entry(ncols, i, j) == Entry(ncols, i', j')
    ensures i == i' && j == j'
  {
    if i > 0 && i' > 0 {
      EntryInjective(ncols, i - 1, j, i' - 1, j');
    }
  }

  /** Entry is a bijection between the grid and 0 .. nrows*ncols-1. */
  lemma EntryOnto(nrows: nat, ncols: nat, t: nat)
    requires t < nrows * ncols
    ensures ncols > 0 && t / ncols < nrows && Entry(ncols, t / ncols, t % ncols) == t
  {
    EntryFormula(ncols, t / ncols, t % ncols);
    if t / ncols >= nrows {
      MulMonotone(nrows, t / ncols, ncols);
    }
  }

  lemma MulMonotone(a: nat, b: nat, c: nat)
    requires a <= b
    ensures a * c <= b * c
  {
  }
}
