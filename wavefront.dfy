/**
 * The wavefront matrix of wavefront_hermite.c. Anti-diagonal k of the
 * dynamic programming grid is stored in row k mod modulus of a
 * modulus x n array of cells, so only the last `modulus` anti-diagonals
 * are kept. Each cell has three elements; each element points at its own
 * slice of rank integer coefficients in one shared brick.
 */
module Wavefront {
  import opened Basics

  /** Element statuses (an enum, not bit flags). */
  const HWAVE_STATUS_UNDEFINED := 0
  const HWAVE_STATUS_UNAMBIGUOUS := 1
  const HWAVE_STATUS_AMBIGUOUS := 2

  const ModulusTooSmall := "the wavefront modulus must be at least 3 because updating diagonal k+2 depends on the values of diagonals k and k+1"
  const ModulusTooLarge := "it makes no sense to use a modulus larger than the size of the matrix"
  const IndexError := "error indexing the wavefront matrix"

  /**
   * One element of a cell: the offset of its coefficient slice in the
   * brick, its status, and its value, where None stands for -infinity.
   */
  datatype Element = Element(vec: nat, status: int, value: Option<real>)

  /** A cell: the three elements m[0], m[1], m[2]. */
  datatype Cell = Cell(m: seq<Element>)

  /** hwave_element_set_undefined: the value becomes -infinity and the status UNDEFINED; the slice stays. */
  function SetUndefined(e: Element): (r: Element)
    ensures r.status == HWAVE_STATUS_UNDEFINED && r.value.None?
    ensures r.vec == e.vec
  {
    e.(status := HWAVE_STATUS_UNDEFINED, value := None)
  }

  /** Marking an element undefined twice is marking it once, and forgets every earlier value and status. */
  lemma SetUndefinedForgets(e: Element, f: Element)
    requires e.vec == f.vec
    ensures SetUndefined(SetUndefined(e)) == SetUndefined(e)
    ensures SetUndefined(e) == SetUndefined(f)
  {
  }

  /** C's % on a positive modulus: truncates toward zero, so a negative k gives a remainder in (-m, 0]. */
  function CRem(a: int, m: int): (r: int)
    requires m > 0
    ensures a >= 0 ==> r == a % m
    ensures a < 0 ==> -m < r <= 0
  {
    if a >= 0 then a % m else -((-a) % m)
  }

  /**
   * hwave_mat_entry as written: the cell index (k mod modulus) * n + l,
   * rejected only when negative or above n * n.
   */
  function EntryAsWritten(n: int, modulus: int, k: int, l: int): (r: Result<int>)
    requires modulus > 0
    ensures r.Ok? ==> 0 <= r.value <= n * n
    ensures r.Abort? ==> r.reason == IndexError
  {
    var idx := CRem(k, modulus) * n + l;
    if idx < 0 || idx > n * n then Abort(IndexError) else Ok(idx)
  }

  /**
   * hwave_mat_entry with the bounds check the data array needs: the
   * index must fall inside the modulus * n cells. Every index it returns
   * is a cell of the data array.
   */
  function Entry(n: int, modulus: int, k: int, l: int): (r: Result<int>)
    requires modulus > 0
    ensures r.Ok? ==> 0 <= r.value < modulus * n
    ensures r.Abort? ==> r.reason == IndexError
  {
    var idx := CRem(k, modulus) * n + l;
    if idx < 0 || idx >= modulus * n then Abort(IndexError) else Ok(idx)
  }

  lemma MulAtLeast(a: int, m: int)
    requires a >= 1 && m >= 0
    ensures a * m >= m
  {
    assert a * m == (a - 1) * m + m;
  }

  /** The only multiple of m strictly between -m and m is 0. */
  lemma SmallMultiple(a: int, m: int)
    requires m > 0 && -m < a * m < m
    ensures a == 0
  {
    if a >= 1 {
      MulAtLeast(a, m);
    } else if a <= -1 {
      MulAtLeast(-a, m);
    }
  }

  /** Euclidean division is unique: x = q m + r with 0 <= r < m gives x / m = q and x % m = r. */
  lemma ModUnique(x: int, q: int, r: int, m: int)
    requires m > 0 && 0 <= r < m && x == q * m + r
    ensures x / m == q && x % m == r
  {
    var q', r' := x / m, x % m;
    assert x == q' * m + r';
    assert (q - q') * m == r' - r;
    SmallMultiple(q - q', m);
  }

  /** Row r, column l of rows of n cells: the position determines the row and the column. */
  lemma RowUnique(n: int, r: int, l: int, r': int, l': int)
    requires n > 0 && 0 <= l < n && 0 <= l' < n && r * n + l == r' * n + l'
    ensures r == r' && l == l'
  {
    assert (r - r') * n == l' - l;
    SmallMultiple(r - r', n);
  }

  lemma RowBelow(n: int, r: int, modulus: int)
    requires n > 0 && 0 <= r < modulus
    ensures r * n + n <= modulus * n
  {
    assert r * n + n == (r + 1) * n;
    assert (r + 1) * n <= modulus * n;
  }

  /**
   * A cell of a stored diagonal (k >= 0, 0 <= l < n) is found, at
   * (k mod modulus) * n + l, and different (k mod modulus, l) pairs never
   * share a cell.
   */
  lemma EntryDefined(n: int, modulus: int, k: int, l: int)
    requires modulus > 0 && n > 0 && k >= 0 && 0 <= l < n
    ensures Entry(n, modulus, k, l) == Ok((k % modulus) * n + l)
  {
    RowBelow(n, k % modulus, modulus);
  }

  lemma EntryInjective(n: int, modulus: int, k: int, l: int, k': int, l': int)
    requires modulus > 0 && n > 0 && k >= 0 && 0 <= l < n && k' >= 0 && 0 <= l' < n
    ensures Entry(n, modulus, k, l) == Entry(n, modulus, k', l') <==> k % modulus == k' % modulus && l == l'
  {
    EntryDefined(n, modulus, k, l);
    EntryDefined(n, modulus, k', l');
    if (k % modulus) * n + l == (k' % modulus) * n + l' {
      RowUnique(n, k % modulus, l, k' % modulus, l');
    }
  }

  /**
   * Why the modulus is at least 3: anti-diagonals k, k - 1 and k - 2 sit
   * in three different rows, so the cell being updated never shares
   * storage with a cell it reads.
   */
  lemma ThreeDiagonalsApart(n: int, modulus: int, k: int, l: int, l': int, d: int)
    requires modulus >= 3 && n > 0 && k >= 2 && 0 <= l < n && 0 <= l' < n && (d == 1 || d == 2)
    ensures Entry(n, modulus, k, l) != Entry(n, modulus, k - d, l')
  {
    EntryInjective(n, modulus, k, l, k - d, l');
    assert k % modulus != (k - d) % modulus by {
      ModShift(k - d, d, modulus);
    }
  }

  lemma ModShift(a: int, d: int, m: int)
    requires a >= 0 && 0 < d < m
    ensures (a + d) % m != a % m
  {
    var q, r := a / m, a % m;
    assert a == q * m + r;
    if r + d < m {
      ModUnique(a + d, q, r + d, m);
    } else {
      assert a + d == (q + 1) * m + (r + d - m);
      ModUnique(a + d, q + 1, r + d - m, m);
    }
  }

  /** hwave_mat_entry_top: the cell one diagonal back and one position along. */
  function EntryTop(n: int, modulus: int, k: int, l: int): (r: Result<int>)
    requires modulus > 0
    ensures r.Ok? ==> 0 <= r.value < modulus * n
    ensures r.Abort? ==> r.reason == IndexError
  {
    Entry(n, modulus, k - 1, l + 1)
  }

  /** hwave_mat_entry_diag: the cell two diagonals back at the same position. */
  function EntryDiag(n: int, modulus: int, k: int, l: int): (r: Result<int>)
    requires modulus > 0
    ensures r.Ok? ==> 0 <= r.value < modulus * n
    ensures r.Abort? ==> r.reason == IndexError
  {
    Entry(n, modulus, k - 2, l)
  }

  /** hwave_mat_entry_left: the cell one diagonal back and one position before. */
  function EntryLeft(n: int, modulus: int, k: int, l: int): (r: Result<int>)
    requires modulus > 0
    ensures r.Ok? ==> 0 <= r.value < modulus * n
    ensures r.Abort? ==> r.reason == IndexError
  {
    Entry(n, modulus, k - 1, l - 1)
  }

  /** Grid cell (i, j) of an nrows-row tableau lies on anti-diagonal i + j, at position nrows - 1 + j - i. */
  function Diagonal(i: int, j: int): int {
    i + j
  }

  function Position(nrows: int, i: int, j: int): int {
    nrows - 1 + j - i
  }

  /**
   * The three neighbour lookups are the cells of the grid neighbours of
   * (i, j) that the recurrence reads: top is (i - 1, j), diag is
   * (i - 1, j - 1) and left is (i, j - 1).
   */
  lemma NeighboursAreGridNeighbours(n: int, modulus: int, nrows: int, i: int, j: int)
    requires modulus > 0
    ensures EntryTop(n, modulus, Diagonal(i, j), Position(nrows, i, j))
         == Entry(n, modulus, Diagonal(i - 1, j), Position(nrows, i - 1, j))
    ensures EntryDiag(n, modulus, Diagonal(i, j), Position(nrows, i, j))
         == Entry(n, modulus, Diagonal(i - 1, j - 1), Position(nrows, i - 1, j - 1))
    ensures EntryLeft(n, modulus, Diagonal(i, j), Position(nrows, i, j))
         == Entry(n, modulus, Diagonal(i, j - 1), Position(nrows, i, j - 1))
  {
  }

  /** The grid-to-wavefront map is one to one: a cell's diagonal and position give its row and column back. */
  lemma WavePositionInverse(nrows: int, i: int, j: int)
    ensures 2 * i == Diagonal(i, j) - Position(nrows, i, j) + nrows - 1
    ensures 2 * j == Diagonal(i, j) + Position(nrows, i, j) - nrows + 1
  {
  }

  /**
   * The bounds check of hwave_mat_entry lets through an index one past
   * the last cell: with modulus 3 and n 4 there are 12 cells, yet
   * (k, l) = (2, 4) gives index 12 <= 16 = n * n, which the corrected
   * check rejects.
   */
  lemma EntryBoundFinding()
    ensures EntryAsWritten(4, 3, 2, 4) == Ok(12) && 12 >= 3 * 4
    ensures Entry(4, 3, 2, 4) == Abort(IndexError)
  {
  }

  /** On the cells of stored diagonals the check as written and the corrected one agree. */
  lemma EntryAsWrittenAgrees(n: int, modulus: int, k: int, l: int)
    requires 0 < modulus <= n && k >= 0 && 0 <= l < n
    ensures EntryAsWritten(n, modulus, k, l) == Entry(n, modulus, k, l)
  {
    var r := k % modulus;
    EntryDefined(n, modulus, k, l);
    RowBelow(n, r, modulus);
    ModulusRows(modulus, n);
    assert CRem(k, modulus) * n + l == r * n + l < n * n;
  }

  lemma ModulusRows(modulus: int, n: int)
    requires 0 < modulus <= n
    ensures modulus * n <= n * n
  {
  }

  /** The offset of coefficient slice c of cell (k, l) in the brick, as hwave_mat_init computes it. */
  function SliceStart(n: nat, rank: nat, k: nat, l: nat, c: nat): nat {
    k * (n * 3 * rank) + l * (3 * rank) + c * rank
  }

  lemma SliceFlat(n: nat, rank: nat, k: nat, l: nat, c: nat)
    ensures SliceStart(n, rank, k, l, c) == ((k * n + l) * 3 + c) * rank
  {
    assert k * (n * 3 * rank) == (k * n) * 3 * rank;
    assert l * (3 * rank) == l * 3 * rank;
    assert ((k * n + l) * 3 + c) * rank == (k * n) * 3 * rank + l * 3 * rank + c * rank;
  }

  lemma FlatBelow(n: nat, modulus: nat, k: nat, l: nat, c: nat)
    requires k < modulus && l < n && c < 3
    ensures (k * n + l) * 3 + c < modulus * n * 3
  {
    assert k * n + l < k * n + n == (k + 1) * n;
    assert (k + 1) * n <= modulus * n;
  }

  lemma FlatInjective(n: nat, k: nat, l: nat, c: nat, k': nat, l': nat, c': nat)
    requires l < n && c < 3 && l' < n && c' < 3
    requires (k * n + l) * 3 + c == (k' * n + l') * 3 + c'
    ensures k == k' && l == l' && c == c'
  {
    var x, x' := k * n + l, k' * n + l';
    assert x * 3 + c == x' * 3 + c';
    RowUnique(3, x, c, x', c');
    RowUnique(n, k, l, k', l');
  }

  lemma SlicesApart(a: nat, b: nat, rank: nat)
    requires a < b
    ensures a * rank + rank <= b * rank
  {
    assert a * rank + rank == (a + 1) * rank;
    assert (a + 1) * rank <= b * rank;
  }

  /**
   * The coefficient slices of hwave_mat_init tile the brick: every slice
   * [start, start + rank) lies inside the modulus * n * 3 * rank
   * integers, and the slices of two different (k, l, c) do not overlap.
   */
  lemma SlicesDisjoint(n: nat, modulus: nat, rank: nat, k: nat, l: nat, c: nat, k': nat, l': nat, c': nat)
    requires k < modulus && l < n && c < 3 && k' < modulus && l' < n && c' < 3
    ensures SliceStart(n, rank, k, l, c) + rank <= modulus * n * 3 * rank
    ensures (k, l, c) != (k', l', c') ==>
      SliceStart(n, rank, k, l, c) + rank <= SliceStart(n, rank, k', l', c')
      || SliceStart(n, rank, k', l', c') + rank <= SliceStart(n, rank, k, l, c)
  {
    var a, b := (k * n + l) * 3 + c, (k' * n + l') * 3 + c';
    SliceFlat(n, rank, k, l, c);
    SliceFlat(n, rank, k', l', c');
    FlatBelow(n, modulus, k, l, c);
    FlatBelow(n, modulus, k', l', c');
    if (k, l, c) != (k', l', c') && a == b {
      FlatInjective(n, k, l, c, k', l', c');
    }
    SlotsApart(a, b, modulus * n * 3, rank);
  }

  /** Slots a and b of width rank below slot top: the first ends within top slots, and distinct slots do not overlap. */
  lemma SlotsApart(a: nat, b: nat, top: nat, rank: nat)
    requires a < top && b < top
    ensures a * rank + rank <= top * rank
    ensures a != b ==> a * rank + rank <= b * rank || b * rank + rank <= a * rank
  {
    SlicesApart(a, top, rank);
    if a < b {
      SlicesApart(a, b, rank);
    } else if b < a {
      SlicesApart(b, a, rank);
    }
  }

  /** A cell as hwave_mat_init leaves cell number t: slice c of it starts at (3t + c) * rank, value 0. */
  ghost predicate Initialised(cell: Cell, rank: nat, t: nat) {
    |cell.m| == 3 && forall c :: 0 <= c < 3 ==> cell.m[c].vec == (t * 3 + c) * rank && cell.m[c].value == Some(0.0)
  }

  /** The first cell of row k of rows of n cells, counted row by row. */
  function RowStart(n: nat, k: nat): nat {
    if k == 0 then 0 else RowStart(n, k - 1) + n
  }

  lemma {:induction false} RowStartIs(n: nat, k: nat)
    ensures RowStart(n, k) == k * n
  {
    if k > 0 {
      RowStartIs(n, k - 1);
      assert (k - 1) * n + n == k * n;
    }
  }

  /** On the stored diagonals 0 .. modulus - 1 the lookup is row k, position l, counted row by row. */
  lemma EntryRow(n: nat, modulus: nat, k: nat, l: nat)
    requires k < modulus && l < n
    ensures Entry(n, modulus, k, l) == Ok(RowStart(n, k) + l)
  {
    ModUnique(k, 0, k, modulus);
    EntryDefined(n, modulus, k, l);
    RowStartIs(n, k);
  }

  /**
   * The cell loop of hwave_mat_init for cell (k, l), number idx: element
   * c gets the slice at k * (n * 3 * rank) + l * (3 * rank) + c * rank
   * and the value 0.
   */
  method MakeCell(n: nat, rank: nat, k: nat, l: nat, idx: nat) returns (cell: Cell)
    requires idx == RowStart(n, k) + l
    ensures Initialised(cell, rank, idx)
  {
    var base := k * (n * 3 * rank) + l * (3 * rank);
    var m: seq<Element> := [];
    var c := 0;
    while c < 3
      invariant c <= 3 && |m| == c
      invariant forall c' :: 0 <= c' < c ==> m[c'].vec == (idx * 3 + c') * rank && m[c'].value == Some(0.0)
    {
      SliceOfCell(n, rank, k, l, idx, c);
      m := m + [Element(base + c * rank, HWAVE_STATUS_UNDEFINED, Some(0.0))];
      c := c + 1;
    }
    cell := Cell(m);
  }

  /** The offset hwave_mat_init gives element c of cell (k, l) is slice c of cell number idx. */
  lemma SliceOfCell(n: nat, rank: nat, k: nat, l: nat, idx: nat, c: nat)
    requires idx == RowStart(n, k) + l
    ensures k * (n * 3 * rank) + l * (3 * rank) + c * rank == (idx * 3 + c) * rank
  {
    RowStartIs(n, k);
    SliceFlat(n, rank, k, l, c);
  }

  class HwaveMat {
    var n: nat
    var modulus: nat
    var rank: nat
    var numberOfFmpz: nat
    var data: array<Cell>

    ghost predicate Valid()
      reads this
    {
      3 <= modulus <= n && data.Length == modulus * n && numberOfFmpz == modulus * n * 3 * rank
    }

    /**
     * The allocation part of hwave_mat_init, for a modulus already
     * checked: a brick of modulus * n * 3 * rank integers and modulus * n
     * cells, visited by diagonal k and position l through the entry
     * lookup, each of whose three elements gets its slice (cell t, the
     * one of (k, l), gets slices 3t, 3t + 1, 3t + 2; SliceFlat shows this
     * is the source's offset formula) and the value 0.
     */
    constructor Init(n: nat, modulus: nat, rank: nat)
      requires 3 <= modulus <= n
      ensures Valid() && fresh(data)
      ensures this.n == n && this.modulus == modulus && this.rank == rank
      ensures forall t :: 0 <= t < data.Length ==> Initialised(data[t], rank, t)
    {
      var size := modulus * n;
      var cells := new Cell[size](_ => Cell([]));
      var k := 0;
      while k < modulus
        invariant cells.Length == size && k <= modulus
        invariant forall t :: 0 <= t < RowStart(n, k) && t < size ==> Initialised(cells[t], rank, t)
      {
        InitRow(cells, n, modulus, rank, k);
        k := k + 1;
      }
      this.n := n;
      this.modulus := modulus;
      this.rank := rank;
      numberOfFmpz := size * 3 * rank;
      data := cells;
      RowStartIs(n, modulus);
    }
  }

  /**
   * One pass of the inner loop of hwave_mat_init: the cells of diagonal k,
   * visited by position l through the entry lookup, are initialised, and
   * with them every cell of the rows before.
   */
  method InitRow(cells: array<Cell>, n: nat, modulus: nat, rank: nat, k: nat)
    requires 0 < modulus <= n && k < modulus && cells.Length == modulus * n
    requires forall t :: 0 <= t < RowStart(n, k) && t < cells.Length ==> Initialised(cells[t], rank, t)
    modifies cells
    ensures forall t :: 0 <= t < RowStart(n, k + 1) && t < cells.Length ==> Initialised(cells[t], rank, t)
  {
    RowStartIs(n, k);
    RowBelow(n, k, modulus);
    var l := 0;
    while l < n
      invariant l <= n
      invariant forall t :: 0 <= t < RowStart(n, k) + l ==> Initialised(cells[t], rank, t)
    {
      EntryRow(n, modulus, k, l);
      var idx := Entry(n, modulus, k, l).value;
      var cell := MakeCell(n, rank, k, l, idx);
      cells[idx] := cell;
      l := l + 1;
    }
  }

  /**
   * hwave_mat_init: aborts when the modulus is below 3 or above n, before
   * allocating anything; otherwise the matrix of Init.
   */
  method HwaveMatInit(n: int, modulus: int, rank: nat) returns (r: Result<HwaveMat>)
    ensures r.Abort? <==> modulus < 3 || modulus > n
    ensures r.Abort? ==> r.reason == if modulus < 3 then ModulusTooSmall else ModulusTooLarge
    ensures r.Ok? ==> (
      && fresh(r.value) && fresh(r.value.data) && r.value.Valid()
      && r.value.n == n && r.value.modulus == modulus && r.value.rank == rank
      && forall t :: 0 <= t < r.value.data.Length ==> Initialised(r.value.data[t], rank, t))
  {
    if modulus < 3 {
      return Abort(ModulusTooSmall);
    }
    if modulus > n {
      return Abort(ModulusTooLarge);
    }
    var mat := new HwaveMat.Init(n, modulus, rank);
    return Ok(mat);
  }
}
