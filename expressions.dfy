/**
 * The expression registry of src/expressions.c, the aliasing of equal
 * equilibrium frequencies onto shared expressions, and the tenacious
 * strict comparison of two expressions. The registry's linked list of
 * nodes is the sequence nodes, from head to tail; tail is the position of
 * the node the tail pointer designates (-1 for NULL).
 */
module Expressions {
  import opened Basics
  import opened Femtocas

  const OutOfOrder := "found a node out of order when clearing a list of expressions"
  const EndBeforeTail := "reached the end of a list before reaching the tail"
  const ComparisonFailed := "tenacious strict comparison failed"

  /** A registry node: the index it was registered under and its expression. */
  datatype RegNode<V(0)> = RegNode(index: int, p: Expr<V>)

  /** The first occurrence of the value at position i, searching from position j on. */
  function FirstOf<Q(==)>(pi: seq<Q>, i: nat, j: nat := 0): (r: nat)
    requires j <= i < |pi| && forall b :: 0 <= b < j ==> pi[b] != pi[i]
    ensures j <= r <= i && pi[r] == pi[i] && forall b :: 0 <= b < r ==> pi[b] != pi[i]
    decreases i - j
  {
    if pi[j] == pi[i] then j else FirstOf(pi, i, j + 1)
  }

  /**
   * The first failure reg_clear meets walking the nodes from position i:
   * a node whose index is not its position, the last node not being the
   * one the tail designates, or an expression whose clear handler is the
   * default one (ok says which have their own).
   */
  function ClearFault<V(0)>(nodes: seq<RegNode<V>>, tail: int, ok: seq<bool>, i: nat): Option<string>
    requires |ok| == |nodes| && i <= |nodes|
    decreases |nodes| - i
  {
    if i == |nodes| then None
    else if nodes[i].index != i then Some(OutOfOrder)
    else if i == |nodes| - 1 && tail != i then Some(EndBeforeTail)
    else if !ok[i] then Some(ClearNotImplemented)
    else ClearFault(nodes, tail, ok, i + 1)
  }

  /** An expression as a successful expr_clear leaves it: no cached levels and the default handlers. */
  ghost predicate Cleared<V(0)>(e: Expr<V>)
    reads e
  {
    e.cachesize == 0 && e.eval == None && !e.clearable
  }

  /** The expressions of a run of nodes, in order. */
  function Ps<V(0)>(ns: seq<RegNode<V>>): (r: seq<Expr<V>>)
    ensures |r| == |ns| && forall k :: 0 <= k < |ns| ==> r[k] == ns[k].p
  {
    if ns == [] then [] else Ps(ns[..|ns| - 1]) + [ns[|ns| - 1].p]
  }

  class ExprReg<V(0)> {
    var nodes: seq<RegNode<V>>
    var tail: int
    var size: nat

    /** The registry as reg_new leaves it: size nodes, node i under index i, the tail pointer on the last node. */
    ghost predicate Valid()
      reads this
    {
      && |nodes| == size && tail == size - 1
      && forall i :: 0 <= i < |nodes| ==> nodes[i].index == i
    }

    ghost function Exprs(): set<Expr<V>>
      reads this
    {
      set i | 0 <= i < |nodes| :: nodes[i].p
    }

    /** reg_init: the empty registry. */
    constructor Init()
      ensures Valid() && nodes == [] && size == 0
    {
      nodes := [];
      tail := -1;
      size := 0;
    }

    /**
     * reg_new: a new expression, registered in a node appended at the tail
     * whose index is the old size. The expression is fresh and not yet
     * given an evaluator.
     */
    method New() returns (e: Expr<V>)
      requires Valid()
      modifies this
      ensures Valid() && fresh(e) && e.Valid() && fresh(e.cache) && e.eval == None
      ensures nodes == old(nodes) + [RegNode(old(size), e)] && size == old(size) + 1
    {
      e := new Expr.Init();
      nodes := nodes + [RegNode(size, e)];
      tail := size;
      size := size + 1;
    }

    /**
     * reg_vec: the registered expressions in the order they were
     * registered, one per node; entry i is the expression registered
     * under index i.
     */
    method Vec() returns (vec: seq<Expr<V>>)
      requires Valid()
      ensures |vec| == size
      ensures forall i :: 0 <= i < size ==> vec[i] == nodes[i].p && nodes[i].index == i
    {
      vec := [];
      var i := 0;
      while i < |nodes|
        invariant i <= |nodes| && |vec| == i
        invariant forall k :: 0 <= k < i ==> vec[k] == nodes[k].p
      {
        vec := vec + [nodes[i].p];
        i := i + 1;
      }
    }

    /** Whether each registered expression has a type-specific clear handler. */
    ghost function Clearable(n: nat): (r: seq<bool>)
      requires n <= |nodes|
      reads this, Exprs()
      ensures |r| == n && forall k :: 0 <= k < n ==> r[k] == nodes[k].p.clearable
    {
      if n == 0 then [] else Clearable(n - 1) + [nodes[n - 1].p.clearable]
    }

    /** Every node's expression is a distinct, valid expression with its own cache. */
    ghost predicate Separate()
      reads this, Exprs()
    {
      && (forall i :: 0 <= i < |nodes| ==> nodes[i].p.Valid())
      && (forall i, j :: 0 <= i < j < |nodes| ==> nodes[i].p != nodes[j].p && nodes[i].p.cache != nodes[j].p.cache)
    }

    /**
     * reg_clear: walks the list checking that node i has index i and that
     * the list ends at the tail, clearing each expression on the way; any
     * failure aborts. Otherwise every expression is cleared and the
     * registry is empty again. Does not need Valid(): the checks are what
     * catches a damaged list.
     */
    method Clear() returns (st: Status)
      requires Separate()
      modifies this, Exprs()
      ensures st.Aborted? <==> ClearFault(old(nodes), old(tail), old(Clearable(|nodes|)), 0).Some?
      ensures st.Aborted? ==> Some(st.reason) == ClearFault(old(nodes), old(tail), old(Clearable(|nodes|)), 0)
      ensures st.Done? ==> Valid() && nodes == [] && size == 0
      ensures st.Done? ==> forall k :: 0 <= k < |old(nodes)| ==> Cleared(old(nodes)[k].p)
    {
      var ns := nodes;
      ghost var ok := Clearable(|nodes|);
      var i := 0;
      while i < |ns|
        invariant i <= |ns| && ns == nodes == old(nodes) && tail == old(tail) && ok == old(Clearable(|nodes|))
        invariant ClearFault(ns, tail, ok, 0) == ClearFault(ns, tail, ok, i)
        invariant forall k :: 0 <= k < |ns| ==> ns[k].p.Valid()
        invariant forall k :: i <= k < |ns| ==> ns[k].p.clearable == ok[k]
        invariant forall k :: 0 <= k < i ==> Cleared(ns[k].p)
      {
        var node := ns[i];
        if node.index != i {
          return Aborted(OutOfOrder);
        }
        if i == |ns| - 1 && tail != i {
          return Aborted(EndBeforeTail);
        }
        var st' := node.p.Clear();
        if st'.Aborted? {
          return st';
        }
        i := i + 1;
      }
      nodes := [];
      tail := -1;
      size := 0;
      return Done;
    }

    /**
     * The pi block of tkf91_expressions_init: for each frequency, the
     * expression of the first earlier equal frequency, or else a newly
     * registered one. Two frequencies share an expression exactly when
     * they are equal, and the new nodes hold exactly those expressions.
     */
    method AliasPi<Q(==)>(pi: seq<Q>) returns (h: seq<Expr<V>>)
      requires Valid()
      modifies this
      ensures Valid() && |h| == |pi| && old(nodes) <= nodes
      ensures forall i, j :: 0 <= i < |pi| && 0 <= j < |pi| ==> (h[i] == h[j] <==> pi[i] == pi[j])
      ensures forall i :: 0 <= i < |pi| ==> h[i] == h[FirstOf(pi, i)]
      ensures forall i :: 0 <= i < |pi| ==> fresh(h[i])
      ensures forall e :: e in h <==> e in Ps(nodes[old(size)..])
    {
      h := [];
      var i := 0;
      while i < |pi|
        invariant i <= |pi| && |h| == i && Valid() && old(nodes) <= nodes
        invariant forall a, b :: 0 <= a < i && 0 <= b < i ==> (h[a] == h[b] <==> pi[a] == pi[b])
        invariant forall a :: 0 <= a < i ==> fresh(h[a])
        invariant forall e :: e in h <==> e in Ps(nodes[old(size)..])
      {
        var j := 0;
        while j < i && pi[i] != pi[j]
          invariant j <= i && forall b :: 0 <= b < j ==> pi[b] != pi[i]
        {
          j := j + 1;
        }
        if j < i {
          h := h + [h[j]];
        } else {
          ghost var known := nodes[old(size)..];
          var e := New();
          h := h + [e];
          assert nodes[old(size)..] == known + [RegNode(size - 1, e)];
          assert Ps(nodes[old(size)..]) == Ps(known) + [e];
        }
        i := i + 1;
      }
      forall i | 0 <= i < |pi| ensures h[i] == h[FirstOf(pi, i)] {
        var f := FirstOf(pi, i);
      }
    }

    /**
     * The match/mismatch block of tkf91_expressions_init: for each
     * frequency, the pair of the first earlier equal frequency, or else a
     * new mismatch expression followed by a new match expression. Two
     * frequencies share their match (and their mismatch) expression
     * exactly when they are equal, and no match expression is a mismatch
     * expression.
     */
    method AliasMatch<Q(==)>(pi: seq<Q>) returns (matches: seq<Expr<V>>, mismatches: seq<Expr<V>>)
      requires Valid()
      modifies this
      ensures Valid() && |matches| == |pi| && |mismatches| == |pi| && old(nodes) <= nodes
      ensures forall i, j :: 0 <= i < |pi| && 0 <= j < |pi| ==> (matches[i] == matches[j] <==> pi[i] == pi[j])
      ensures forall i, j :: 0 <= i < |pi| && 0 <= j < |pi| ==> (mismatches[i] == mismatches[j] <==> pi[i] == pi[j])
      ensures forall i, j :: 0 <= i < |pi| && 0 <= j < |pi| ==> matches[i] != mismatches[j]
      ensures forall i :: 0 <= i < |pi| ==> fresh(matches[i]) && fresh(mismatches[i])
    {
      matches, mismatches := [], [];
      var i := 0;
      while i < |pi|
        invariant i <= |pi| && |matches| == i && |mismatches| == i && Valid() && old(nodes) <= nodes
        invariant forall a, b :: 0 <= a < i && 0 <= b < i ==> (matches[a] == matches[b] <==> pi[a] == pi[b])
        invariant forall a, b :: 0 <= a < i && 0 <= b < i ==> (mismatches[a] == mismatches[b] <==> pi[a] == pi[b])
        invariant forall a, b :: 0 <= a < i && 0 <= b < i ==> matches[a] != mismatches[b]
        invariant forall a :: 0 <= a < i ==> fresh(matches[a]) && fresh(mismatches[a])
      {
        var j := 0;
        while j < i && pi[i] != pi[j]
          invariant j <= i && forall b :: 0 <= b < j ==> pi[b] != pi[i]
        {
          j := j + 1;
        }
        if j < i {
          matches, mismatches := matches + [matches[j]], mismatches + [mismatches[j]];
        } else {
          var a := New();
          var m := New();
          matches, mismatches := matches + [m], mismatches + [a];
        }
        i := i + 1;
      }
    }
  }

  /**
   * What tenacious_strict_gt decides from the balls of the two expressions
   * at the levels from `level` up: at the first level where the balls do
   * not overlap, whether the first is above the second; an evaluation
   * without an evaluator aborts, and so does running out of levels.
   */
  function Separation<V>(xs: seq<Option<V>>, ys: seq<Option<V>>, level: nat,
                         overlaps: (V, V) -> bool, gt: (V, V) -> bool): Result<bool>
    decreases |xs| - level
  {
    if level >= |xs| || level >= |ys| then Abort(ComparisonFailed)
    else if xs[level].None? || ys[level].None? then Abort(EvalNotImplemented)
    else if !overlaps(xs[level].value, ys[level].value) then Ok(gt(xs[level].value, ys[level].value))
    else Separation(xs, ys, level + 1, overlaps, gt)
  }

  /** A decided comparison was decided at a level where the balls are apart. */
  lemma {:induction false} SeparationWitness<V>(xs: seq<Option<V>>, ys: seq<Option<V>>, level: nat,
                                                overlaps: (V, V) -> bool, gt: (V, V) -> bool)
    requires Separation(xs, ys, level, overlaps, gt).Ok?
    ensures exists l :: (level <= l < |xs| && l < |ys| && xs[l].Some? && ys[l].Some?
                         && !overlaps(xs[l].value, ys[l].value)
                         && Separation(xs, ys, level, overlaps, gt).value == gt(xs[l].value, ys[l].value))
    decreases |xs| - level
  {
    if !overlaps(xs[level].value, ys[level].value) {
    } else {
      SeparationWitness(xs, ys, level + 1, overlaps, gt);
    }
  }

  /**
   * With a symmetric overlap test and a comparison that, on balls that are
   * apart, puts exactly one of them above the other, the comparison is a
   * strict order: a above b means b is not above a, and it does not abort
   * one way and not the other.
   */
  lemma {:induction false} SeparationAsymmetric<V>(xs: seq<Option<V>>, ys: seq<Option<V>>, level: nat,
                                                   overlaps: (V, V) -> bool, gt: (V, V) -> bool)
    requires forall x, y :: overlaps(x, y) == overlaps(y, x)
    requires forall x, y :: !overlaps(x, y) ==> (gt(x, y) <==> !gt(y, x))
    ensures Separation(xs, ys, level, overlaps, gt).Ok? <==> Separation(ys, xs, level, overlaps, gt).Ok?
    ensures Separation(xs, ys, level, overlaps, gt) == Ok(true) ==> Separation(ys, xs, level, overlaps, gt) == Ok(false)
    decreases |xs| - level
  {
    if level < |xs| && level < |ys| && xs[level].Some? && ys[level].Some?
       && overlaps(xs[level].value, ys[level].value) {
      SeparationAsymmetric(xs, ys, level + 1, overlaps, gt);
    }
  }

  /**
   * tenacious_strict_gt: false for the same expression; otherwise the two
   * are evaluated at levels 0, 1, ... below CacheCap until their balls are
   * apart, and the answer is whether a's ball is above b's. Since
   * evaluation never changes the balls an expression stands for, the
   * answer is decided by the balls before the call.
   */
  method TenaciousStrictGt<V(0)>(a: Expr<V>, b: Expr<V>, overlaps: (V, V) -> bool, gt: (V, V) -> bool)
    returns (r: Result<bool>)
    requires a.Valid() && b.Valid() && (a != b ==> a.cache != b.cache)
    modifies a, a.cache, b, b.cache
    ensures a == b ==> r == Ok(false)
    ensures a != b ==> r == Separation(old(a.Values()), old(b.Values()), 0, overlaps, gt)
  {
    if a == b {
      return Ok(false);
    }
    ghost var xs, ys := a.Values(), b.Values();
    var level := 0;
    while level < CacheCap
      invariant level <= CacheCap && a.Valid() && b.Valid()
      invariant a.cache == old(a.cache) && b.cache == old(b.cache)
      invariant a.Values() == xs && b.Values() == ys
      invariant Separation(xs, ys, 0, overlaps, gt) == Separation(xs, ys, level, overlaps, gt)
    {
      var x := a.ExprEval(level);
      if x.Abort? {
        return Abort(x.reason);
      }
      var y := b.ExprEval(level);
      if y.Abort? {
        return Abort(y.reason);
      }
      if !overlaps(x.value, y.value) {
        return Ok(gt(x.value, y.value));
      }
      level := level + 1;
    }
    return Abort(ComparisonFailed);
  }
}
