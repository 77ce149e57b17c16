/**
 * The generator registry of generators.c. Each generator is a vector of
 * expression multiplicities, one entry per registered expression; the
 * registry is a state machine: gen_open appends a zero vector and opens
 * it, gen_add adds exponents into the open (last) vector, gen_close
 * closes it. The C list of nodes is the sequence vecs, in order.
 */
module Generators {
  import opened Basics

  const AlreadyOpen := "the generator is already open for adding"
  const NotOpen := "the generator is not open for adding"
  const CloseWhenClosed := "attempting to close while the generator is not open for adding"
  const LenWhileOpen := "the final number of generators is not available while the generator registry is open for adding"
  const MatrixWhileOpen := "the matrix is not available while the generator registry is open for adding"
  const WrongDimensions := "the dimensions of the generator matrix are wrong"
  const ClearWhileOpen := "the generator cannot be cleared while it is open for adding"

  /** A vector of n zero multiplicities, as _fmpz_vec_init gives. */
  function Zeros(n: nat): (r: seq<int>)
    ensures |r| == n && forall k :: 0 <= k < n ==> r[k] == 0
  {
    if n == 0 then [] else Zeros(n - 1) + [0]
  }

  /** One gen_add: the expression's registry index and the exponent added there. */
  datatype Addition = Addition(idx: nat, exponent: int)

  predicate InRange(adds: seq<Addition>, n: nat) {
    forall t :: 0 <= t < |adds| ==> adds[t].idx < n
  }

  /** The vector v after the additions, applied in order as gen_add does. */
  function Accumulate(v: seq<int>, adds: seq<Addition>): (r: seq<int>)
    requires InRange(adds, |v|)
    ensures |r| == |v|
    decreases |adds|
  {
    if adds == [] then v
    else
      var w := Accumulate(v, adds[..|adds| - 1]);
      var a := adds[|adds| - 1];
      w[a.idx := w[a.idx] + a.exponent]
  }

  /** The total exponent the additions give expression k. */
  function Weight(adds: seq<Addition>, k: nat): int
    decreases |adds|
  {
    if adds == [] then 0
    else Weight(adds[..|adds| - 1], k) + (if adds[|adds| - 1].idx == k then adds[|adds| - 1].exponent else 0)
  }

  /** Each entry of an accumulated vector is its start plus the total exponent given to that expression, whatever the order. */
  lemma {:induction false} AccumulateEntry(v: seq<int>, adds: seq<Addition>, k: nat)
    requires InRange(adds, |v|) && k < |v|
    ensures Accumulate(v, adds)[k] == v[k] + Weight(adds, k)
    decreases |adds|
  {
    if adds != [] {
      AccumulateEntry(v, adds[..|adds| - 1], k);
    }
  }

  /** A generator opened by gen_open and then given the additions holds, for each expression, exactly its total exponent. */
  lemma GeneratorRow(adds: seq<Addition>, n: nat, k: nat)
    requires InRange(adds, n) && k < n
    ensures Accumulate(Zeros(n), adds)[k] == Weight(adds, k)
  {
    AccumulateEntry(Zeros(n), adds, k);
  }

  class GeneratorReg {
    var vecs: seq<seq<int>>
    var size: nat
    var exprLen: nat
    var open: bool

    /** size counts the nodes, every vector has one entry per expression, and an open registry has a last generator. */
    ghost predicate Valid()
      reads this
    {
      && size == |vecs|
      && (forall i :: 0 <= i < |vecs| ==> |vecs[i]| == exprLen)
      && (open ==> size >= 1)
    }

    /** generator_reg_init: empty and closed. */
    constructor Init(exprLen: nat)
      ensures Valid()
      ensures vecs == [] && size == 0 && !open && this.exprLen == exprLen
    {
      vecs := [];
      size := 0;
      this.exprLen := exprLen;
      open := false;
    }

    /** generator_reg_generators_len: the number of generators, not available while open. */
    method GeneratorsLen() returns (r: Result<nat>)
      requires Valid()
      ensures r.Abort? <==> open
      ensures r.Abort? ==> r.reason == LenWhileOpen
      ensures r.Ok? ==> r.value == |vecs|
    {
      if open {
        return Abort(LenWhileOpen);
      }
      return Ok(size);
    }

    /**
     * generator_reg_get_matrix: aborts while open or when mat is not
     * size x exprLen; otherwise row i of mat is the i-th generator.
     */
    method GetMatrix(mat: array2<int>) returns (st: Status)
      requires Valid()
      modifies mat
      ensures st.Aborted? <==> open || mat.Length0 != size || mat.Length1 != exprLen
      ensures st == Aborted(MatrixWhileOpen) <==> open
      ensures st.Done? ==> forall i, j :: 0 <= i < mat.Length0 && 0 <= j < mat.Length1 ==> mat[i, j] == vecs[i][j]
      ensures st.Aborted? ==> unchanged(mat)
    {
      if open {
        return Aborted(MatrixWhileOpen);
      }
      if mat.Length0 != size || mat.Length1 != exprLen {
        return Aborted(WrongDimensions);
      }
      var i := 0;
      while i < size
        invariant i <= size
        invariant forall r, c :: 0 <= r < i && 0 <= c < mat.Length1 ==> mat[r, c] == vecs[r][c]
      {
        var j := 0;
        while j < mat.Length1
          invariant j <= mat.Length1
          invariant forall r, c :: 0 <= r < i && 0 <= c < mat.Length1 ==> mat[r, c] == vecs[r][c]
          invariant forall c :: 0 <= c < j ==> mat[i, c] == vecs[i][c]
        {
          mat[i, j] := vecs[i][j];
          j := j + 1;
        }
        i := i + 1;
      }
      return Done;
    }

    /** generator_reg_clear: aborts while open; otherwise the registry is empty again. */
    method Clear() returns (st: Status)
      requires Valid()
      modifies this
      ensures Valid()
      ensures st.Aborted? <==> old(open)
      ensures st.Aborted? ==> st.reason == ClearWhileOpen && unchanged(this)
      ensures st.Done? ==> vecs == [] && size == 0 && !open && exprLen == old(exprLen)
    {
      if open {
        return Aborted(ClearWhileOpen);
      }
      vecs := [];
      size := 0;
      return Done;
    }

    /**
     * gen_open: aborts when already open; otherwise a zero vector is
     * appended as the new last generator, its index is the old size, and
     * the registry is open.
     */
    method Open() returns (r: Result<nat>)
      requires Valid()
      modifies this
      ensures Valid()
      ensures r.Abort? <==> old(open)
      ensures r.Abort? ==> r.reason == AlreadyOpen && unchanged(this)
      ensures r.Ok? ==> (r.value == old(size) && vecs == old(vecs) + [Zeros(exprLen)]
                         && size == old(size) + 1 && open && exprLen == old(exprLen))
    {
      if open {
        return Abort(AlreadyOpen);
      }
      r := Ok(size);
      vecs := vecs + [Zeros(exprLen)];
      size := size + 1;
      open := true;
    }

    /**
     * gen_add: aborts when closed; otherwise adds the exponent to the
     * entry of the last generator at the expression's registry index, and
     * to nothing else. The index is the one the expression registry gave
     * the expression, so it is below exprLen.
     */
    method Add(idx: nat, exponent: int) returns (st: Status)
      requires Valid() && idx < exprLen
      modifies this
      ensures Valid()
      ensures st.Aborted? <==> !old(open)
      ensures st.Aborted? ==> st.reason == NotOpen && unchanged(this)
      ensures st.Done? ==> (open && size == old(size) && exprLen == old(exprLen)
                            && vecs == old(vecs)[size - 1 := Accumulate(old(vecs)[size - 1], [Addition(idx, exponent)])])
    {
      if !open {
        return Aborted(NotOpen);
      }
      var tail := vecs[size - 1];
      vecs := vecs[size - 1 := tail[idx := tail[idx] + exponent]];
      assert [Addition(idx, exponent)][..0] == [];
      return Done;
    }

    /** gen_close: aborts when not open; otherwise closes, keeping every generator. */
    method Close() returns (st: Status)
      requires Valid()
      modifies this
      ensures Valid()
      ensures st.Aborted? <==> !old(open)
      ensures st.Aborted? ==> st.reason == CloseWhenClosed && unchanged(this)
      ensures st.Done? ==> !open && vecs == old(vecs) && size == old(size) && exprLen == old(exprLen)
    {
      if !open {
        return Aborted(CloseWhenClosed);
      }
      open := false;
      return Done;
    }
  }
}
