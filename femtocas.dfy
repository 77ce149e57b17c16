/**
 * The precision-level evaluation cache of an expression (src/femtocas.c).
 * An expression evaluates to a ball (of the abstract type V) at each
 * precision level 0 .. CacheCap - 1; results are cached in order of level.
 * What an expression evaluates to is its evaluator, a function of the
 * level; the arithmetic behind it is not part of this model. An expression
 * whose evaluator is None still has the default handlers, which abort.
 */
module Femtocas {
  import opened Basics

  /** EXPR_CACHE_CAP: at most this many levels are cached. */
  const CacheCap: nat := 30

  const InvalidLevel := "invalid log2 prec bits level"
  const EvalNotImplemented := "eval() not implemented"
  const ClearNotImplemented := "clear() not implemented"

  class Expr<V(0)> {
    var cache: array<V>
    var cachesize: nat
    /** The eval handler; None is _default_eval. */
    var eval: Option<nat -> V>
    /** Whether a type-specific clear handler is installed; false is _default_clear. */
    var clearable: bool

    ghost predicate Valid()
      reads this
    {
      cache.Length == CacheCap && cachesize <= CacheCap
    }

    /** _expr_init: an empty cache and the default handlers. */
    constructor Init()
      ensures Valid() && fresh(cache)
      ensures cachesize == 0 && eval == None && !clearable
    {
      cache := new V[CacheCap];
      cachesize := 0;
      eval := None;
      clearable := false;
    }

    /**
     * expr_fmpq and its siblings: _expr_init, then the type-specific
     * clear handler and the evaluator f.
     */
    method Install(f: nat -> V)
      requires Valid()
      modifies this
      ensures Valid() && cache == old(cache)
      ensures cachesize == 0 && eval == Some(f) && clearable
    {
      cachesize := 0;
      eval := Some(f);
      clearable := true;
    }

    /**
     * expr_clear: the cache is emptied first; then the clear handler runs,
     * which aborts when it is the default one; otherwise the default
     * handlers are put back.
     */
    method Clear() returns (st: Status)
      requires Valid()
      modifies this
      ensures Valid() && cache == old(cache) && cachesize == 0
      ensures st.Aborted? <==> !old(clearable)
      ensures st.Aborted? ==> st.reason == ClearNotImplemented && eval == old(eval) && !clearable
      ensures st.Done? ==> eval == None && !clearable
    {
      cachesize := 0;
      if !clearable {
        return Aborted(ClearNotImplemented);
      }
      eval := None;
      clearable := false;
      return Done;
    }

    /** The ball at a level: the cached one when the level is cached, a fresh evaluation otherwise. */
    ghost function ValueAt(level: nat): Option<V>
      requires Valid()
      reads this, cache
    {
      if level < cachesize then Some(cache[level])
      else if level < CacheCap && eval.Some? then Some(eval.value(level))
      else None
    }

    /** The balls at all levels, cached or not. */
    ghost function Values(): (r: seq<Option<V>>)
      requires Valid()
      reads this, cache
      ensures |r| == CacheCap && forall k :: 0 <= k < CacheCap ==> r[k] == ValueAt(k)
    {
      ValuesUpTo(CacheCap)
    }

    ghost function ValuesUpTo(n: nat): (r: seq<Option<V>>)
      requires Valid() && n <= CacheCap
      reads this, cache
      ensures |r| == n && forall k :: 0 <= k < n ==> r[k] == ValueAt(k)
    {
      if n == 0 then [] else ValuesUpTo(n - 1) + [ValueAt(n - 1)]
    }

    /**
     * expr_eval: aborts on a level outside 0 .. CacheCap - 1. When the
     * level is not cached yet, the levels from cachesize up to it are
     * evaluated in increasing order and cached, and cachesize becomes
     * level + 1; with the default evaluator the first of them aborts.
     * Cached levels are never evaluated again.
     */
    method ExprEval(level: int) returns (r: Result<V>)
      requires Valid()
      modifies this, cache
      ensures Valid() && cache == old(cache) && eval == old(eval) && clearable == old(clearable)
      ensures r.Abort? <==> level < 0 || level >= CacheCap || (level >= old(cachesize) && eval.None?)
      ensures r.Abort? ==> r.reason == if level < 0 || level >= CacheCap then InvalidLevel else EvalNotImplemented
      ensures r.Abort? ==> cachesize == old(cachesize) && cache[..] == old(cache[..])
      ensures Values() == old(Values())
      ensures r.Ok? ==> Some(r.value) == old(ValueAt(level))
      ensures r.Ok? ==> cachesize == if level < old(cachesize) then old(cachesize) else level + 1
      ensures r.Ok? ==> forall i :: 0 <= i < old(cachesize) ==> cache[i] == old(cache[i])
      ensures r.Ok? ==> forall i :: old(cachesize) <= i < cachesize ==> cache[i] == eval.value(i)
    {
      if level < 0 || CacheCap <= level {
        return Abort(InvalidLevel);
      }
      if level >= cachesize {
        if eval.None? {
          return Abort(EvalNotImplemented);
        }
        var f := eval.value;
        var i := cachesize;
        while i < level + 1
          invariant Valid() && cache == old(cache) && cachesize == old(cachesize)
          invariant eval == old(eval) && clearable == old(clearable)
          invariant cachesize <= i <= level + 1
          invariant forall k :: 0 <= k < cachesize ==> cache[k] == old(cache[k])
          invariant forall k :: cachesize <= k < i ==> cache[k] == f(k)
        {
          cache[i] := f(i);
          i := i + 1;
        }
        cachesize := level + 1;
      }
      return Ok(cache[level]);
    }
  }
}
