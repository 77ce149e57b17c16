/**
 * Shared vocabulary: optional values, the outcome of a C routine that may
 * call abort(), and sequence reversal (both tracebacks fill their output
 * buffers backwards and then reverse them in place).
 */
module Basics {

  datatype Option<+T> = None | Some(value: T)

  /** The value a routine returns, or the abort() it ends in. */
  datatype Result<+T> = Ok(value: T) | Abort(reason: string)

  /** For routines that return nothing: they finish, or they abort(). */
  datatype Status = Done | Aborted(reason: string)

  /** The sequence read back to front; peels the last element first. */
  function Reverse<T>(s: seq<T>): (r: seq<T>)
    ensures |r| == |s|
  {
    if s == [] then [] else [s[|s| - 1]] + Reverse(s[..|s| - 1])
  }

  lemma {:induction false} ReverseAt<T>(s: seq<T>, k: nat)
    requires k < |s|
    ensures Reverse(s)[k] == s[|s| - 1 - k]
  {
    if k > 0 {
      ReverseAt(s[..|s| - 1], k - 1);
    }
  }

  lemma ReverseInvolution<T>(s: seq<T>)
    ensures Reverse(Reverse(s)) == s
  {
    var r := Reverse(Reverse(s));
    forall k | 0 <= k < |s| ensures r[k] == s[k] {
      ReverseAt(Reverse(s), k);
      ReverseAt(s, |s| - 1 - k);
    }
  }

  /** Reversal turns a concatenation around. */
  lemma ReverseAppend<T>(a: seq<T>, b: seq<T>)
    ensures Reverse(a + b) == Reverse(b) + Reverse(a)
  {
    var r, s := Reverse(a + b), Reverse(b) + Reverse(a);
    forall k | 0 <= k < |a| + |b| ensures r[k] == s[k] {
      ReverseAt(a + b, k);
      if k < |b| {
        ReverseAt(b, k);
      } else {
        ReverseAt(a, k - |b|);
      }
    }
  }

  /** A sequence that reads s backwards element by element is Reverse(s). */
  lemma ReverseFrom<T>(r: seq<T>, s: seq<T>)
    requires |r| == |s|
    requires forall q :: 0 <= q < |s| ==> r[q] == s[|s| - 1 - q]
    ensures r == Reverse(s)
  {
    forall q | 0 <= q < |s| ensures r[q] == Reverse(s)[q] {
      ReverseAt(s, q);
    }
  }

  /**
   * s after the first k steps of an in-place reversal of its first len
   * elements: the first k and the last k of them have swapped places.
   */
  function PartlyReversed<T>(s: seq<T>, len: nat, k: nat): (r: seq<T>)
    requires len <= |s| && k <= len / 2
  {
    seq(|s|, q requires 0 <= q < |s| => if q < k || len - k <= q < len then s[len - 1 - q] else s[q])
  }

  /** One more swap of the in-place reversal. */
  lemma PartlyReversedStep<T>(s: seq<T>, len: nat, k: nat)
    requires len <= |s| && k < len / 2
    ensures var p := PartlyReversed(s, len, k);
      p[k := p[len - 1 - k]][len - 1 - k := p[k]] == PartlyReversed(s, len, k + 1)
  {
  }

  /** After len / 2 swaps the first len elements are reversed and the rest untouched. */
  lemma PartlyReversedDone<T>(s: seq<T>, len: nat)
    requires len <= |s|
    ensures PartlyReversed(s, len, 0) == s
    ensures PartlyReversed(s, len, len / 2)[..len] == Reverse(s[..len])
    ensures PartlyReversed(s, len, len / 2)[len..] == s[len..]
  {
    ReverseFrom(PartlyReversed(s, len, len / 2)[..len], s[..len]);
  }

  /** Writing c just past a prefix p of new contents over the old contents s extends the prefix. */
  lemma WriteAfter<T>(p: seq<T>, s: seq<T>, c: T)
    requires |p| < |s|
    ensures (p + s[|p|..])[|p| := c] == (p + [c]) + s[|p| + 1..]
  {
  }
}
