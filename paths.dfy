/**
 * Paths through a flag tableau, for the two solution counters
 * (src/count_solutions.c and count_solutions.c). A path runs back from a
 * cell to (0, 0) through cells that carry a marker bit (TRACE, or
 * CRUMB_CONTENDER), each step allowed by the direction bit of the cell it
 * leaves. NumPaths is the recurrence both counters compute; Paths lists
 * the paths themselves, and the lemmas show that the list holds every path
 * exactly once and that its length is NumPaths.
 */
module TracePaths {
  import opened DpFlags
  import opened Traceback

  /** Whether cell (i, j) allows step d: the step stays in the grid and its direction bit is set. */
  predicate Allows(cells: seq<bv8>, ncols: nat, m: Masks, i: nat, j: nat, d: Dir) {
    Fits(d, i, j) && At(cells, ncols, i, j) & Bit(m, d) != 0
  }

  /** p is a path back from (i, j) to (0, 0) through cells marked with on. */
  predicate IsPath(cells: seq<bv8>, ncols: nat, m: Masks, on: bv8, i: nat, j: nat, p: seq<Dir>)
    decreases |p|
  {
    && Has(At(cells, ncols, i, j), on)
    && if p == [] then i == 0 && j == 0
       else Allows(cells, ncols, m, i, j, p[0]) && IsPath(cells, ncols, m, on, Back(p[0], true, i), Back(p[0], false, j), p[1..])
  }

  /** The number of paths, by the recurrence the counters evaluate cell by cell. */
  function NumPaths(cells: seq<bv8>, ncols: nat, m: Masks, on: bv8, i: nat, j: nat): nat
    decreases i + j
  {
    if !Has(At(cells, ncols, i, j), on) then 0
    else
      (if i == 0 && j == 0 then 1 else 0)
      + (if Allows(cells, ncols, m, i, j, Top) then NumPaths(cells, ncols, m, on, i - 1, j) else 0)
      + (if Allows(cells, ncols, m, i, j, Diag) then NumPaths(cells, ncols, m, on, i - 1, j - 1) else 0)
      + (if Allows(cells, ncols, m, i, j, Left) then NumPaths(cells, ncols, m, on, i, j - 1) else 0)
  }

  /** Each path of ps preceded by step d. */
  function Extend(d: Dir, ps: seq<seq<Dir>>): (r: seq<seq<Dir>>)
    ensures |r| == |ps| && forall k :: 0 <= k < |r| ==> r[k] == [d] + ps[k]
  {
    seq(|ps|, k requires 0 <= k < |ps| => [d] + ps[k])
  }

  /** The paths that first take step d from (i, j), or none when (i, j) does not allow it. */
  function Via(cells: seq<bv8>, ncols: nat, m: Masks, on: bv8, i: nat, j: nat, d: Dir): seq<seq<Dir>>
    decreases i + j, 0
  {
    if Allows(cells, ncols, m, i, j, d) then Extend(d, Paths(cells, ncols, m, on, Back(d, true, i), Back(d, false, j))) else []
  }

  /** Every path back from (i, j): the empty one at (0, 0), then those going up, diagonally, and left. */
  function Paths(cells: seq<bv8>, ncols: nat, m: Masks, on: bv8, i: nat, j: nat): seq<seq<Dir>>
    decreases i + j, 1
  {
    if !Has(At(cells, ncols, i, j), on) then []
    else
      (if i == 0 && j == 0 then [[]] else [])
      + Via(cells, ncols, m, on, i, j, Top) + Via(cells, ncols, m, on, i, j, Diag) + Via(cells, ncols, m, on, i, j, Left)
  }

  /** The recurrence counts the listed paths. */
  lemma {:induction false} PathsCount(cells: seq<bv8>, ncols: nat, m: Masks, on: bv8, i: nat, j: nat)
    ensures |Paths(cells, ncols, m, on, i, j)| == NumPaths(cells, ncols, m, on, i, j)
    decreases i + j, 1
  {
    if Has(At(cells, ncols, i, j), on) {
      ViaCount(cells, ncols, m, on, i, j, Top);
      ViaCount(cells, ncols, m, on, i, j, Diag);
      ViaCount(cells, ncols, m, on, i, j, Left);
    }
  }

  lemma {:induction false} ViaCount(cells: seq<bv8>, ncols: nat, m: Masks, on: bv8, i: nat, j: nat, d: Dir)
    ensures |Via(cells, ncols, m, on, i, j, d)| ==
      if Allows(cells, ncols, m, i, j, d) then NumPaths(cells, ncols, m, on, Back(d, true, i), Back(d, false, j)) else 0
    decreases i + j, 0
  {
    if Allows(cells, ncols, m, i, j, d) {
      PathsCount(cells, ncols, m, on, Back(d, true, i), Back(d, false, j));
    }
  }

  /** Where a path listed by Paths(i, j) lies: in the (0, 0) part or in one of the three Via parts. */
  lemma PathsMember(cells: seq<bv8>, ncols: nat, m: Masks, on: bv8, i: nat, j: nat, p: seq<Dir>)
    requires p in Paths(cells, ncols, m, on, i, j)
    ensures Has(At(cells, ncols, i, j), on)
    ensures p == [] ==> i == 0 && j == 0
    ensures p != [] ==> Allows(cells, ncols, m, i, j, p[0])
                        && p[1..] in Paths(cells, ncols, m, on, Back(p[0], true, i), Back(p[0], false, j))
  {
    var v0: seq<seq<Dir>> := if i == 0 && j == 0 then [[]] else [];
    var vt, vd, vl := Via(cells, ncols, m, on, i, j, Top), Via(cells, ncols, m, on, i, j, Diag), Via(cells, ncols, m, on, i, j, Left);
    assert Paths(cells, ncols, m, on, i, j) == v0 + vt + vd + vl;
    if p in vt {
      ViaMember(cells, ncols, m, on, i, j, Top, p);
    } else if p in vd {
      ViaMember(cells, ncols, m, on, i, j, Diag, p);
    } else if p in vl {
      ViaMember(cells, ncols, m, on, i, j, Left, p);
    }
  }

  lemma ViaMember(cells: seq<bv8>, ncols: nat, m: Masks, on: bv8, i: nat, j: nat, d: Dir, p: seq<Dir>)
    requires p in Via(cells, ncols, m, on, i, j, d)
    ensures Allows(cells, ncols, m, i, j, d) && p != [] && p[0] == d
    ensures p[1..] in Paths(cells, ncols, m, on, Back(d, true, i), Back(d, false, j))
  {
    var v := Via(cells, ncols, m, on, i, j, d);
    var rest := Paths(cells, ncols, m, on, Back(d, true, i), Back(d, false, j));
    var k :| 0 <= k < |v| && v[k] == p;
    assert p[1..] == rest[k];
  }

  /** Every listed path is a path. */
  lemma {:induction false} PathsSound(cells: seq<bv8>, ncols: nat, m: Masks, on: bv8, i: nat, j: nat, p: seq<Dir>)
    requires p in Paths(cells, ncols, m, on, i, j)
    ensures IsPath(cells, ncols, m, on, i, j, p)
    decreases |p|
  {
    PathsMember(cells, ncols, m, on, i, j, p);
    if p != [] {
      PathsSound(cells, ncols, m, on, Back(p[0], true, i), Back(p[0], false, j), p[1..]);
    }
  }

  /** Every path is listed. */
  lemma {:induction false} PathsComplete(cells: seq<bv8>, ncols: nat, m: Masks, on: bv8, i: nat, j: nat, p: seq<Dir>)
    requires IsPath(cells, ncols, m, on, i, j, p)
    ensures p in Paths(cells, ncols, m, on, i, j)
    decreases |p|
  {
    if p != [] {
      PathsComplete(cells, ncols, m, on, Back(p[0], true, i), Back(p[0], false, j), p[1..]);
      ViaHas(cells, ncols, m, on, i, j, p[0], p[1..]);
      assert [p[0]] + p[1..] == p;
    }
    InPaths(cells, ncols, m, on, i, j, p);
  }

  /** A listed path one step back, preceded by an allowed step, is listed via that step. */
  lemma ViaHas(cells: seq<bv8>, ncols: nat, m: Masks, on: bv8, i: nat, j: nat, d: Dir, q: seq<Dir>)
    requires Allows(cells, ncols, m, i, j, d)
    requires q in Paths(cells, ncols, m, on, Back(d, true, i), Back(d, false, j))
    ensures [d] + q in Via(cells, ncols, m, on, i, j, d)
  {
    var rest := Paths(cells, ncols, m, on, Back(d, true, i), Back(d, false, j));
    var k :| 0 <= k < |rest| && rest[k] == q;
    assert Via(cells, ncols, m, on, i, j, d)[k] == [d] + q;
  }

  /** The converse of PathsMember: the empty path at a marked (0, 0), or a path listed via its first step. */
  lemma InPaths(cells: seq<bv8>, ncols: nat, m: Masks, on: bv8, i: nat, j: nat, p: seq<Dir>)
    requires Has(At(cells, ncols, i, j), on)
    requires p == [] ==> i == 0 && j == 0
    requires p != [] ==> p in Via(cells, ncols, m, on, i, j, p[0])
    ensures p in Paths(cells, ncols, m, on, i, j)
  {
    var v0: seq<seq<Dir>> := if i == 0 && j == 0 then [[]] else [];
    var vt, vd, vl := Via(cells, ncols, m, on, i, j, Top), Via(cells, ncols, m, on, i, j, Diag), Via(cells, ncols, m, on, i, j, Left);
    assert Paths(cells, ncols, m, on, i, j) == v0 + vt + vd + vl;
    if p == [] {
      assert p == v0[0];
    }
  }

  predicate Distinct<T(==)>(s: seq<T>) {
    forall k, l :: 0 <= k < l < |s| ==> s[k] != s[l]
  }

  lemma ExtendDistinct(d: Dir, ps: seq<seq<Dir>>)
    requires Distinct(ps)
    ensures Distinct(Extend(d, ps))
  {
    var e := Extend(d, ps);
    forall k, l | 0 <= k < l < |e| ensures e[k] != e[l] {
      assert e[k][1..] == ps[k] && e[l][1..] == ps[l];
    }
  }

  /** Two lists of paths that start with different steps (or none) share no path, so their concatenation stays distinct. */
  lemma AppendDistinct(u: seq<seq<Dir>>, v: seq<seq<Dir>>)
    requires Distinct(u) && Distinct(v)
    requires forall k, l :: 0 <= k < |u| && 0 <= l < |v| ==> u[k] != v[l]
    ensures Distinct(u + v)
  {
  }

  /** No path is listed twice, so NumPaths is the number of distinct paths. */
  lemma {:induction false} PathsDistinct(cells: seq<bv8>, ncols: nat, m: Masks, on: bv8, i: nat, j: nat)
    ensures Distinct(Paths(cells, ncols, m, on, i, j))
    decreases i + j, 1
  {
    if Has(At(cells, ncols, i, j), on) {
      var v0: seq<seq<Dir>> := if i == 0 && j == 0 then [[]] else [];
      var vt, vd, vl := Via(cells, ncols, m, on, i, j, Top), Via(cells, ncols, m, on, i, j, Diag), Via(cells, ncols, m, on, i, j, Left);
      ViaDistinct(cells, ncols, m, on, i, j, Top);
      ViaDistinct(cells, ncols, m, on, i, j, Diag);
      ViaDistinct(cells, ncols, m, on, i, j, Left);
      JoinDistinct(v0, vt, vd, vl);
      assert Paths(cells, ncols, m, on, i, j) == v0 + vt + vd + vl;
    }
  }

  /** Every path of s begins with step d. */
  predicate Heads(s: seq<seq<Dir>>, d: Dir) {
    forall k :: 0 <= k < |s| ==> s[k] != [] && s[k][0] == d
  }

  /** The four parts of Paths share no path, as each begins differently. */
  lemma JoinDistinct(v0: seq<seq<Dir>>, vt: seq<seq<Dir>>, vd: seq<seq<Dir>>, vl: seq<seq<Dir>>)
    requires v0 == [] || v0 == [[]]
    requires Distinct(vt) && Heads(vt, Top) && Distinct(vd) && Heads(vd, Diag) && Distinct(vl) && Heads(vl, Left)
    ensures Distinct(v0 + vt + vd + vl)
  {
    AppendDistinct(v0, vt);
    var u := v0 + vt;
    assert forall k :: 0 <= k < |u| ==> u[k] == [] || u[k][0] == Top;
    AppendDistinct(u, vd);
    var w := u + vd;
    assert forall k :: 0 <= k < |w| ==> w[k] == [] || w[k][0] != Left;
    AppendDistinct(w, vl);
  }

  /** The paths via step d are distinct and all begin with d. */
  lemma {:induction false} ViaDistinct(cells: seq<bv8>, ncols: nat, m: Masks, on: bv8, i: nat, j: nat, d: Dir)
    ensures Distinct(Via(cells, ncols, m, on, i, j, d)) && Heads(Via(cells, ncols, m, on, i, j, d), d)
    decreases i + j, 0
  {
    if Allows(cells, ncols, m, i, j, d) {
      var rest := Paths(cells, ncols, m, on, Back(d, true, i), Back(d, false, j));
      PathsDistinct(cells, ncols, m, on, Back(d, true, i), Back(d, false, j));
      ExtendDistinct(d, rest);
    }
  }
}
