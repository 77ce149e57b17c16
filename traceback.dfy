/**
 * The traceback shared by dp_mat_get_alignment (src/dp.c) and
 * breadcrumb_mat_get_alignment (breadcrumbs.c).
 *
 * Starting at the bottom-right cell of an nrows x ncols flag matrix, each
 * cell's byte is matched against three direction bits in a fixed order; the
 * first one set decides the step, which writes one alignment column into
 * the output buffers sa and sb. The buffers are filled back to front and
 * reversed in place at the end. The two sources differ only in which bits
 * they test, so both are described by one specification over a Masks value.
 */
module Traceback {
  import opened Basics
  import opened DpFlags
  import opened Nucleotides

  /**
   * One step of a traceback. Top moves up a row and writes a column with a
   * gap in B, Diag moves up and left and writes a letter in each row, Left
   * moves left and writes a column with a gap in A.
   */
  datatype Dir = Top | Diag | Left

  /** The bits that allow each step, tried in the order top, diag, left. */
  datatype Masks = Masks(top: bv8, diag: bv8, left: bv8)

  function Bit(m: Masks, d: Dir): bv8 {
    match d
    case Top => m.top
    case Diag => m.diag
    case Left => m.left
  }

  /** The step a cell byte selects: the first allowed direction in priority order. */
  function Choose(x: bv8, m: Masks): (r: Option<Dir>)
    ensures r.None? <==> x & m.top == 0 && x & m.diag == 0 && x & m.left == 0
    ensures r.Some? ==> x & Bit(m, r.value) != 0
    ensures r.Some? && r.value != Top ==> x & m.top == 0
    ensures r == Some(Left) ==> x & m.diag == 0
  {
    if x & m.top != 0 then Some(Top)
    else if x & m.diag != 0 then Some(Diag)
    else if x & m.left != 0 then Some(Left)
    else None
  }

  /** Whether step d writes a letter of the first sequence (first) or of the second (!first). */
  predicate Takes(d: Dir, first: bool) {
    if first then d != Left else d != Top
  }

  /** Whether step d can be taken at (i, j) without reading before the start of A or B. */
  predicate Fits(d: Dir, i: nat, j: nat) {
    (Takes(d, true) ==> i > 0) && (Takes(d, false) ==> j > 0)
  }

  function Back(d: Dir, first: bool, n: nat): nat
    requires Takes(d, first) ==> n > 0
  {
    if Takes(d, first) then n - 1 else n
  }

  /** Number of letters of one sequence that the steps t write. */
  function Count(t: seq<Dir>, first: bool): (c: nat)
    ensures c <= |t|
  {
    if t == [] then 0 else Count(t[..|t| - 1], first) + (if Takes(t[|t| - 1], first) then 1 else 0)
  }

  lemma {:induction false} CountAppend(s: seq<Dir>, t: seq<Dir>, first: bool)
    ensures Count(s + t, first) == Count(s, first) + Count(t, first)
  {
    if t == [] {
      assert s + t == s;
    } else {
      assert (s + t)[..|s + t| - 1] == s + t[..|t| - 1];
      CountAppend(s, t[..|t| - 1], first);
    }
  }

  /** Every step writes a letter into at least one of the rows. */
  lemma {:induction false} CountCovers(t: seq<Dir>)
    ensures Count(t, true) + Count(t, false) >= |t|
  {
    if t != [] {
      CountCovers(t[..|t| - 1]);
    }
  }

  /**
   * The steps of the traceback from (i, j) back to (0, 0), in the order they
   * are taken, or the reason it stops: no allowed bit is set ("lost the
   * thread", an abort() in the source), or the chosen step would read
   * A[-1] or B[-1], which the source does not guard against.
   */
  function Trail(cells: seq<bv8>, ncols: nat, m: Masks, i: nat, j: nat): (r: Result<seq<Dir>>)
    ensures r.Ok? ==> Count(r.value, true) == i && Count(r.value, false) == j
    decreases i + j
  {
    if i == 0 && j == 0 then Ok([])
    else
      match Choose(At(cells, ncols, i, j), m)
      case None => Abort(LostThread)
      case Some(d) =>
        if !Fits(d, i, j) then Abort(ReadsBeforeStart)
        else
          var rest := Trail(cells, ncols, m, Back(d, true, i), Back(d, false, j));
          if rest.Abort? then Abort(rest.reason)
          else
            CountAppend([d], rest.value, true);
            CountAppend([d], rest.value, false);
            Ok([d] + rest.value)
  }

  const LostThread := "lost the thread in the dynamic programing traceback"
  const ReadsBeforeStart := "reads before the start of a sequence"

  /** Steps p followed by the outcome r. */
  function Then(p: seq<Dir>, r: Result<seq<Dir>>): Result<seq<Dir>> {
    match r
    case Ok(s) => Ok(p + s)
    case Abort(e) => Abort(e)
  }

  /** A traceback from (i, j) takes at least max(i, j) and at most i + j steps. */
  lemma TrailLength(cells: seq<bv8>, ncols: nat, m: Masks, i: nat, j: nat)
    requires Trail(cells, ncols, m, i, j).Ok?
    ensures i <= |Trail(cells, ncols, m, i, j).value| <= i + j
    ensures j <= |Trail(cells, ncols, m, i, j).value|
  {
    CountCovers(Trail(cells, ncols, m, i, j).value);
  }

  predicate AllBases(s: seq<int>) {
    forall k :: 0 <= k < |s| ==> IsBase(s[k])
  }

  /**
   * The characters the steps t write into one output buffer, in the order
   * written, when the walk starts at row (or column) n of sequence s: a
   * letter of s for a step that takes one, counting down from s[n - 1],
   * and a gap otherwise.
   */
  function Row(s: seq<int>, t: seq<Dir>, n: nat, first: bool): (w: seq<char>)
    requires Count(t, first) <= n <= |s| && AllBases(s)
    ensures |w| == |t|
  {
    if t == [] then []
    else
      var init := t[..|t| - 1];
      Row(s, init, n, first) + [if Takes(t[|t| - 1], first) then Letter(s[n - Count(init, first) - 1]) else '-']
  }

  /**
   * A row has a gap exactly where its step takes no letter of the sequence,
   * and every character in it reads back as a code: a base for a letter.
   */
  lemma {:induction false} RowGaps(s: seq<int>, t: seq<Dir>, n: nat, first: bool, k: nat)
    requires Count(t, first) <= n <= |s| && AllBases(s) && k < |t|
    ensures Row(s, t, n, first)[k] == '-' <==> !Takes(t[k], first)
    ensures Code(Row(s, t, n, first)[k]).Some?
    ensures Takes(t[k], first) ==> IsBase(Code(Row(s, t, n, first)[k]).value)
  {
    var init := t[..|t| - 1];
    if k < |t| - 1 {
      RowGaps(s, init, n, first, k);
    } else if Takes(t[k], first) {
      CodeOfLetter(s[n - Count(init, first) - 1]);
    }
  }

  /** The letters of a code vector as text. */
  function Spell(s: seq<int>): (w: seq<char>)
    requires AllBases(s)
  {
    seq(|s|, k requires 0 <= k < |s| => Letter(s[k]))
  }

  /** The text with every gap character removed. */
  function DropGaps(w: seq<char>): (r: seq<char>)
    ensures |r| <= |w|
    ensures '-' !in r
  {
    if w == [] then [] else (if w[0] == '-' then [] else [w[0]]) + DropGaps(w[1..])
  }

  lemma {:induction false} DropGapsAppend(v: seq<char>, w: seq<char>)
    ensures DropGaps(v + w) == DropGaps(v) + DropGaps(w)
  {
    if v != [] {
      assert (v + w)[1..] == v[1..] + w;
      DropGapsAppend(v[1..], w);
    } else {
      assert v + w == w;
    }
  }

  lemma {:induction false} DropGapsReverse(w: seq<char>)
    ensures DropGaps(Reverse(w)) == Reverse(DropGaps(w))
  {
    if w != [] {
      var init, last := w[..|w| - 1], w[|w| - 1];
      assert w == init + [last];
      DropGapsAppend(init, [last]);
      DropGapsReverse(init);
      DropGapsAppend([last], Reverse(init));
      ReverseAppend(DropGaps(init), DropGaps([last]));
      assert DropGaps([last]) == (if last == '-' then [] else [last]) by {
        assert [last][1..] == [];
      }
    }
  }

  lemma DropGapsSnoc(w: seq<char>, c: char)
    ensures DropGaps(w + [c]) == DropGaps(w) + (if c == '-' then [] else [c])
  {
    DropGapsAppend(w, [c]);
    assert [c][1..] == [];
  }

  lemma SpellCons(s: seq<int>, lo: nat, n: nat)
    requires lo < n <= |s| && AllBases(s)
    ensures Reverse(Spell(s[lo..n])) == Reverse(Spell(s[lo + 1..n])) + [Letter(s[lo])]
  {
    assert Spell(s[lo..n]) == [Letter(s[lo])] + Spell(s[lo + 1..n]);
    ReverseAppend([Letter(s[lo])], Spell(s[lo + 1..n]));
    assert Reverse([Letter(s[lo])]) == [Letter(s[lo])];
  }

  /** Read without its gaps, a row written from n down spells s[n - c .. n] backwards. */
  lemma {:induction false} RowDropGaps(s: seq<int>, t: seq<Dir>, n: nat, first: bool)
    requires Count(t, first) <= n <= |s| && AllBases(s)
    ensures DropGaps(Row(s, t, n, first)) == Reverse(Spell(s[n - Count(t, first)..n]))
  {
    if t == [] {
      assert s[n..n] == [];
    } else {
      var init := t[..|t| - 1];
      var lo := n - Count(init, first);
      var c := if Takes(t[|t| - 1], first) then Letter(s[lo - 1]) else '-';
      assert Row(s, t, n, first) == Row(s, init, n, first) + [c];
      DropGapsSnoc(Row(s, init, n, first), c);
      RowDropGaps(s, init, n, first);
      if Takes(t[|t| - 1], first) {
        SpellCons(s, lo - 1, n);
      }
    }
  }

  /**
   * The text the traceback leaves in an output buffer, in forward order:
   * removing its gaps gives back the sequence, letter for letter.
   */
  lemma AlignedRowSpellsSequence(s: seq<int>, t: seq<Dir>, n: nat, first: bool)
    requires Count(t, first) == n <= |s| && AllBases(s)
    ensures DropGaps(Reverse(Row(s, t, n, first))) == Spell(s[..n])
  {
    DropGapsReverse(Row(s, t, n, first));
    RowDropGaps(s, t, n, first);
    assert s[n - Count(t, first)..n] == s[..n];
    ReverseInvolution(Spell(s[..n]));
  }

  /** No column of a traceback has a gap in both rows. */
  lemma NoGapColumn(a: seq<int>, b: seq<int>, t: seq<Dir>, i: nat, j: nat)
    requires Count(t, true) <= i <= |a| && AllBases(a)
    requires Count(t, false) <= j <= |b| && AllBases(b)
    ensures forall k :: 0 <= k < |t| ==> Reverse(Row(a, t, i, true))[k] != '-' || Reverse(Row(b, t, j, false))[k] != '-'
  {
    forall k | 0 <= k < |t|
      ensures Reverse(Row(a, t, i, true))[k] != '-' || Reverse(Row(b, t, j, false))[k] != '-'
    {
      ReverseAt(Row(a, t, i, true), k);
      ReverseAt(Row(b, t, j, false), k);
      RowGaps(a, t, i, true, |t| - 1 - k);
      RowGaps(b, t, j, false, |t| - 1 - k);
    }
  }

  /** Trail taken one step: the step the corner cell chooses, then the rest. */
  lemma TrailUnfold(cells: seq<bv8>, ncols: nat, m: Masks, i: nat, j: nat)
    requires i > 0 || j > 0
    ensures Trail(cells, ncols, m, i, j) ==
      match Choose(At(cells, ncols, i, j), m)
      case None => Abort(LostThread)
      case Some(d) =>
        if !Fits(d, i, j) then Abort(ReadsBeforeStart)
        else Then([d], Trail(cells, ncols, m, Back(d, true, i), Back(d, false, j)))
  {
  }

  /** A traceback that succeeds from (i, j) begins with the step the cell chooses and goes on from where it leads. */
  lemma TrailFirstStep(cells: seq<bv8>, ncols: nat, m: Masks, i: nat, j: nat, t: seq<Dir>)
    requires i > 0 || j > 0
    requires Trail(cells, ncols, m, i, j) == Ok(t)
    ensures Choose(At(cells, ncols, i, j), m).Some? && |t| > 0
    ensures t[0] == Choose(At(cells, ncols, i, j), m).value && Fits(t[0], i, j)
    ensures Trail(cells, ncols, m, Back(t[0], true, i), Back(t[0], false, j)) == Ok(t[1..])
  {
    TrailUnfold(cells, ncols, m, i, j);
    var d := Choose(At(cells, ncols, i, j), m).value;
    assert t[1..] == Trail(cells, ncols, m, Back(d, true, i), Back(d, false, j)).value;
  }

  lemma ThenThen(p: seq<Dir>, q: seq<Dir>, r: Result<seq<Dir>>)
    ensures Then(p, Then(q, r)) == Then(p + q, r)
  {
    if r.Ok? {
      assert p + (q + r.value) == (p + q) + r.value;
    }
  }

  /** What the traceback needs of its arguments: a non-empty tableau and sequences of bases long enough for it. */
  predicate Inputs(nrows: nat, ncols: nat, a: seq<int>, b: seq<int>) {
    nrows >= 1 && ncols >= 1 && nrows - 1 <= |a| && AllBases(a) && ncols - 1 <= |b| && AllBases(b)
  }

  /**
   * The state of the traceback loop after the steps done: the walk is at
   * (i, j), the steps taken so far are the start of the whole traceback,
   * and rowA / rowB are what has been written into sa and sb.
   */
  ghost predicate Walked(cells: seq<bv8>, nrows: nat, ncols: nat, m: Masks, a: seq<int>, b: seq<int>,
                         done: seq<Dir>, i: nat, j: nat, rowA: seq<char>, rowB: seq<char>)
    requires Inputs(nrows, ncols, a, b)
  {
    && Count(done, true) + i == nrows - 1 && Count(done, false) + j == ncols - 1
    && Trail(cells, ncols, m, nrows - 1, ncols - 1) == Then(done, Trail(cells, ncols, m, i, j))
    && rowA == Row(a, done, nrows - 1, true) && rowB == Row(b, done, ncols - 1, false)
  }

  lemma WalkStart(cells: seq<bv8>, nrows: nat, ncols: nat, m: Masks, a: seq<int>, b: seq<int>)
    requires Inputs(nrows, ncols, a, b)
    ensures Walked(cells, nrows, ncols, m, a, b, [], nrows - 1, ncols - 1, [], [])
  {
    var tr := Trail(cells, ncols, m, nrows - 1, ncols - 1);
    if tr.Ok? {
      assert [] + tr.value == tr.value;
    }
  }

  /** Taking the step the cell at (i, j) chooses writes one column and moves the walk on. */
  lemma WalkStep(cells: seq<bv8>, nrows: nat, ncols: nat, m: Masks, a: seq<int>, b: seq<int>,
                 done: seq<Dir>, i: nat, j: nat, rowA: seq<char>, rowB: seq<char>, d: Dir)
    requires Inputs(nrows, ncols, a, b)
    requires Walked(cells, nrows, ncols, m, a, b, done, i, j, rowA, rowB)
    requires i > 0 || j > 0
    requires Choose(At(cells, ncols, i, j), m) == Some(d) && Fits(d, i, j)
    ensures Walked(cells, nrows, ncols, m, a, b, done + [d], Back(d, true, i), Back(d, false, j),
                   rowA + [if Takes(d, true) then Letter(a[i - 1]) else '-'],
                   rowB + [if Takes(d, false) then Letter(b[j - 1]) else '-'])
  {
    TrailUnfold(cells, ncols, m, i, j);
    ThenThen(done, [d], Trail(cells, ncols, m, Back(d, true, i), Back(d, false, j)));
    assert (done + [d])[..|done|] == done;
  }

  /** Walked, together with the loop's bounds on the position and the number of columns written. */
  ghost predicate WalkedSoFar(cells: seq<bv8>, nrows: nat, ncols: nat, m: Masks, a: seq<int>, b: seq<int>,
                              done: seq<Dir>, i: nat, j: nat, rowA: seq<char>, rowB: seq<char>, len: nat)
    requires Inputs(nrows, ncols, a, b)
  {
    && i <= nrows - 1 && j <= ncols - 1
    && len == |done| == |rowA| == |rowB| && len + i + j <= nrows + ncols - 2
    && Walked(cells, nrows, ncols, m, a, b, done, i, j, rowA, rowB)
  }

  lemma WalkStepSoFar(cells: seq<bv8>, nrows: nat, ncols: nat, m: Masks, a: seq<int>, b: seq<int>,
                      done: seq<Dir>, i: nat, j: nat, rowA: seq<char>, rowB: seq<char>, len: nat, d: Dir)
    requires Inputs(nrows, ncols, a, b)
    requires WalkedSoFar(cells, nrows, ncols, m, a, b, done, i, j, rowA, rowB, len)
    requires i > 0 || j > 0
    requires Choose(At(cells, ncols, i, j), m) == Some(d) && Fits(d, i, j)
    ensures Back(d, true, i) + Back(d, false, j) < i + j
    ensures WalkedSoFar(cells, nrows, ncols, m, a, b, done + [d], Back(d, true, i), Back(d, false, j),
                        rowA + [if Takes(d, true) then Letter(a[i - 1]) else '-'],
                        rowB + [if Takes(d, false) then Letter(b[j - 1]) else '-'], len + 1)
  {
    WalkStep(cells, nrows, ncols, m, a, b, done, i, j, rowA, rowB, d);
  }

  /** A walk that has stopped at a cell with no usable step ends the traceback with that reason. */
  lemma WalkStuck(cells: seq<bv8>, nrows: nat, ncols: nat, m: Masks, a: seq<int>, b: seq<int>,
                  done: seq<Dir>, i: nat, j: nat, rowA: seq<char>, rowB: seq<char>)
    requires Inputs(nrows, ncols, a, b)
    requires Walked(cells, nrows, ncols, m, a, b, done, i, j, rowA, rowB)
    requires i > 0 || j > 0
    ensures var c := Choose(At(cells, ncols, i, j), m);
      var tr := Trail(cells, ncols, m, nrows - 1, ncols - 1);
      && (c.None? ==> tr == Abort(LostThread))
      && (c.Some? && !Fits(c.value, i, j) ==> tr == Abort(ReadsBeforeStart))
  {
    TrailUnfold(cells, ncols, m, i, j);
  }

  /** A walk that has reached (0, 0) has written the whole traceback. */
  lemma WalkDone(cells: seq<bv8>, nrows: nat, ncols: nat, m: Masks, a: seq<int>, b: seq<int>,
                 done: seq<Dir>, rowA: seq<char>, rowB: seq<char>)
    requires Inputs(nrows, ncols, a, b)
    requires Walked(cells, nrows, ncols, m, a, b, done, 0, 0, rowA, rowB)
    ensures Trail(cells, ncols, m, nrows - 1, ncols - 1) == Ok(done)
    ensures rowA == Row(a, done, nrows - 1, true) && rowB == Row(b, done, ncols - 1, false)
  {
    assert done + [] == done;
  }

  /**
   * The traceback loop: writes the columns into sa and sb from index 0 up,
   * in the order the steps are taken (the alignment read backwards).
   */
  method WalkBack(cells: seq<bv8>, nrows: nat, ncols: nat, m: Masks,
                  a: seq<int>, b: seq<int>, sa: array<char>, sb: array<char>)
    returns (r: Result<nat>)
    requires nrows >= 1 && ncols >= 1 && |cells| == nrows * ncols
    requires nrows - 1 <= |a| && AllBases(a) && ncols - 1 <= |b| && AllBases(b)
    requires sa.Length >= nrows + ncols - 2 && sb.Length >= nrows + ncols - 2 && sa != sb
    modifies sa, sb
    ensures var tr := Trail(cells, ncols, m, nrows - 1, ncols - 1);
      && (r.Abort? <==> tr.Abort?)
      && (r.Abort? ==> r.reason == tr.reason)
      && (r.Ok? ==>
            && r.value == |tr.value| <= nrows + ncols - 2
            && sa[..] == Row(a, tr.value, nrows - 1, true) + old(sa[..])[r.value..]
            && sb[..] == Row(b, tr.value, ncols - 1, false) + old(sb[..])[r.value..])
  {
    var i: nat, j: nat := nrows - 1, ncols - 1;
    var len := 0;
    ghost var done: seq<Dir> := [];
    ghost var a0, b0 := sa[..], sb[..];
    ghost var rowA: seq<char>, rowB: seq<char> := [], [];
    WalkStart(cells, nrows, ncols, m, a, b);
    while i > 0 || j > 0
      invariant WalkedSoFar(cells, nrows, ncols, m, a, b, done, i, j, rowA, rowB, len)
      invariant sa[..] == rowA + a0[len..] && sb[..] == rowB + b0[len..]
      decreases i + j
    {
      EntryInBounds(nrows, ncols, i, j);
      var choice := Choose(cells[Entry(ncols, i, j)], m);
      WalkStuck(cells, nrows, ncols, m, a, b, done, i, j, rowA, rowB);
      if choice.None? {
        return Abort(LostThread);
      }
      var d := choice.value;
      if !Fits(d, i, j) {
        return Abort(ReadsBeforeStart);
      }
      var ca := if Takes(d, true) then Letter(a[i - 1]) else '-';
      var cb := if Takes(d, false) then Letter(b[j - 1]) else '-';
      WalkStepSoFar(cells, nrows, ncols, m, a, b, done, i, j, rowA, rowB, len, d);
      WriteColumn(sa, sb, len, ca, cb, rowA, rowB, a0, b0);
      rowA, rowB := rowA + [ca], rowB + [cb];
      done := done + [d];
      i, j := Back(d, true, i), Back(d, false, j);
      len := len + 1;
    }
    WalkDone(cells, nrows, ncols, m, a, b, done, rowA, rowB);
    return Ok(len);
  }

  /** Writes one column of the alignment at index len of the two buffers. */
  method WriteColumn(sa: array<char>, sb: array<char>, len: nat, ca: char, cb: char,
                     ghost rowA: seq<char>, ghost rowB: seq<char>, ghost a0: seq<char>, ghost b0: seq<char>)
    requires sa != sb && len == |rowA| == |rowB| && len < |a0| && len < |b0|
    requires sa[..] == rowA + a0[len..] && sb[..] == rowB + b0[len..]
    modifies sa, sb
    ensures sa[..] == (rowA + [ca]) + a0[len + 1..] && sb[..] == (rowB + [cb]) + b0[len + 1..]
  {
    WriteAfter(rowA, a0, ca);
    WriteAfter(rowB, b0, cb);
    sa[len] := ca;
    sb[len] := cb;
  }

  /** The in-place reversal of the first len characters of both buffers. */
  method ReverseBoth(sa: array<char>, sb: array<char>, len: nat)
    requires len <= sa.Length && len <= sb.Length && sa != sb
    modifies sa, sb
    ensures sa[..len] == Reverse(old(sa[..len])) && sa[len..] == old(sa[len..])
    ensures sb[..len] == Reverse(old(sb[..len])) && sb[len..] == old(sb[len..])
  {
    ghost var fa, fb := sa[..], sb[..];
    PartlyReversedDone(fa, len);
    PartlyReversedDone(fb, len);
    var k := 0;
    while k < len / 2
      invariant 0 <= k <= len / 2
      invariant sa[..] == PartlyReversed(fa, len, k)
      invariant sb[..] == PartlyReversed(fb, len, k)
    {
      var l := len - 1 - k;
      PartlyReversedStep(fa, len, k);
      PartlyReversedStep(fb, len, k);
      sa[k], sa[l] := sa[l], sa[k];
      sb[k], sb[l] := sb[l], sb[k];
      k := k + 1;
    }
  }

  /**
   * The outcome of a whole traceback written into the rows A and B: it
   * aborts exactly when the walk over the cells does, with the same
   * reason, and otherwise its value is the number of steps, at most
   * nrows + ncols - 2, and A and B start with the two alignment rows in
   * forward order.
   */
  predicate Traced(cells: seq<bv8>, nrows: nat, ncols: nat, m: Masks, a: seq<int>, b: seq<int>,
                   r: Result<nat>, A: seq<char>, B: seq<char>)
    requires Inputs(nrows, ncols, a, b)
  {
    var tr := Trail(cells, ncols, m, nrows - 1, ncols - 1);
    && (r.Abort? <==> tr.Abort?)
    && (r.Abort? ==> r.reason == tr.reason)
    && (r.Ok? ==>
          && r.value == |tr.value| <= nrows + ncols - 2 && r.value <= |A| && r.value <= |B|
          && A[..r.value] == Reverse(Row(a, tr.value, nrows - 1, true))
          && B[..r.value] == Reverse(Row(b, tr.value, ncols - 1, false)))
  }

  /**
   * The whole traceback: the walk followed by the in-place reversal. On
   * success the result is the alignment length, the first len characters of
   * sa and sb are the two rows of the alignment in forward order, and
   * nothing past them is touched.
   */
  method RunTraceback(cells: seq<bv8>, nrows: nat, ncols: nat, m: Masks,
                      a: seq<int>, b: seq<int>, sa: array<char>, sb: array<char>)
    returns (r: Result<nat>)
    requires nrows >= 1 && ncols >= 1 && |cells| == nrows * ncols
    requires nrows - 1 <= |a| && AllBases(a) && ncols - 1 <= |b| && AllBases(b)
    requires sa.Length >= nrows + ncols - 2 && sb.Length >= nrows + ncols - 2 && sa != sb
    modifies sa, sb
    ensures Traced(cells, nrows, ncols, m, a, b, r, sa[..], sb[..])
    ensures r.Ok? ==> sa[r.value..] == old(sa[r.value..]) && sb[r.value..] == old(sb[r.value..])
  {
    r := WalkBack(cells, nrows, ncols, m, a, b, sa, sb);
    if r.Ok? {
      ghost var rowA, rowB := Row(a, Trail(cells, ncols, m, nrows - 1, ncols - 1).value, nrows - 1, true),
                              Row(b, Trail(cells, ncols, m, nrows - 1, ncols - 1).value, ncols - 1, false);
      assert sa[..r.value] == rowA && sb[..r.value] == rowB;
      assert sa[r.value..] == old(sa[r.value..]) && sb[r.value..] == old(sb[r.value..]);
      ReverseBoth(sa, sb, r.value);
    }
  }
}
