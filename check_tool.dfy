/**
 * The alignment checker executable (src/arbtkf91-check.c): it reads the
 * two rows of a gapped alignment, recovers the two sequences by dropping
 * the gaps, sizes the tableau mask for them, has the alignment judged,
 * and reports the verdict as "yes"/"no" strings together with the number
 * of optimal alignments. The dynamic programming that fills the mask and
 * the judgement itself are parameters here (see README).
 */
module CheckTool {
  import opened Basics
  import opened Nucleotides
  import opened Traceback
  import opened DpCheck
  import opened Breadcrumbs

  const UnrecognizedNucleotide := "unrecognized nucleotide"
  const RowLengths := "alignment rows have different lengths"

  /** The entries of an alignment row that are not gaps (-1), in order. */
  function Ungapped(v: seq<int>): (r: seq<int>)
    ensures |r| <= |v| && forall k :: 0 <= k < |r| ==> r[k] >= 0
  {
    if v == [] then [] else Ungapped(v[..|v| - 1]) + (if v[|v| - 1] >= 0 then [v[|v| - 1]] else [])
  }

  /** The number of gap entries of a row. */
  function Gaps(v: seq<int>): nat {
    if v == [] then 0 else Gaps(v[..|v| - 1]) + (if v[|v| - 1] >= 0 then 0 else 1)
  }

  /** Every entry is either a letter of the sequence or a gap. */
  lemma {:induction false} UngappedLength(v: seq<int>)
    ensures |Ungapped(v)| + Gaps(v) == |v|
  {
    if v != [] {
      UngappedLength(v[..|v| - 1]);
    }
  }

  /**
   * sequence_pair_init: one pass over the alignment columns appends each
   * non-gap entry of row A to the first sequence and each non-gap entry
   * of row B to the second; the buffers have room for the whole row.
   */
  method SequencePairInit(A: array<int>, B: array<int>, len: nat)
    returns (sa: array<int>, sb: array<int>, lenA: nat, lenB: nat)
    requires len <= A.Length && len <= B.Length
    ensures fresh(sa) && fresh(sb) && sa.Length == len && sb.Length == len
    ensures lenA <= len && sa[..lenA] == Ungapped(A[..len])
    ensures lenB <= len && sb[..lenB] == Ungapped(B[..len])
  {
    sa := new int[len];
    sb := new int[len];
    lenA, lenB := 0, 0;
    var i := 0;
    while i < len
      invariant i <= len && lenA <= i && lenB <= i
      invariant sa[..lenA] == Ungapped(A[..i]) && sb[..lenB] == Ungapped(B[..i])
    {
      assert A[..i + 1] == A[..i] + [A[i]] && B[..i + 1] == B[..i] + [B[i]];
      UngappedSnoc(A[..i], A[i]);
      UngappedSnoc(B[..i], B[i]);
      lenA := PushLetter(sa, lenA, A[i]);
      lenB := PushLetter(sb, lenB, B[i]);
      i := i + 1;
    }
  }

  /** One column of sequence_pair_init for one row: a non-gap entry is appended to the buffer. */
  method PushLetter(buf: array<int>, len: nat, x: int) returns (len': nat)
    requires len < buf.Length
    modifies buf
    ensures len' == len + (if x >= 0 then 1 else 0)
    ensures buf[..len'] == old(buf[..len]) + (if x >= 0 then [x] else [])
  {
    len' := len;
    if x >= 0 {
      buf[len] := x;
      len' := len + 1;
    }
  }

  lemma UngappedSnoc(x: seq<int>, c: int)
    ensures Ungapped(x + [c]) == Ungapped(x) + (if c >= 0 then [c] else [])
  {
    assert (x + [c])[..|x|] == x;
  }

  lemma EncodeSnoc(v: seq<char>, c: char)
    requires Encode(v).Some? && Code(c).Some?
    ensures Encode(v + [c]) == Some(Encode(v).value + [Code(c).value])
  {
    assert (v + [c])[..|v|] == v;
  }

  /** Encoding text and dropping the gap codes is dropping the gap characters and encoding. */
  lemma {:induction false} UngappedEncode(w: seq<char>)
    requires Encode(w).Some?
    ensures Encode(DropGaps(w)).Some? && Ungapped(Encode(w).value) == Encode(DropGaps(w)).value
  {
    if w != [] {
      var init, last := w[..|w| - 1], w[|w| - 1];
      assert w == init + [last];
      UngappedEncode(init);
      UngappedEncodeStep(init, last);
    }
  }

  /** One more character keeps UngappedEncode: a letter is appended on both sides, a gap on neither. */
  lemma UngappedEncodeStep(init: seq<char>, last: char)
    requires Encode(init).Some? && Encode(init + [last]).Some?
    requires Encode(DropGaps(init)).Some? && Ungapped(Encode(init).value) == Encode(DropGaps(init)).value
    ensures Encode(DropGaps(init + [last])).Some?
    ensures Ungapped(Encode(init + [last]).value) == Encode(DropGaps(init + [last])).value
  {
    var w := init + [last];
    assert Code(last).Some? by {
      assert w[|w| - 1] == last;
    }
    var c := Code(last).value;
    assert c >= 0 <==> last != '-' by {
      assert Code(last) == Some(c) && IsCode(c);
    }
    var tail := if c >= 0 then [c] else [];
    var d := DropGaps(init);
    var ed := Encode(d).value;
    EncodeSnoc(init, last);
    UngappedSnoc(Encode(init).value, c);
    assert Ungapped(Encode(w).value) == ed + tail;
    DropGapsSnoc(init, last);
    if last != '-' {
      EncodeSnoc(d, last);
      assert Encode(DropGaps(w)).value == ed + tail;
    } else {
      assert DropGaps(w) == d;
    }
  }

  /**
   * Fed a row of an alignment the traceback printed, the checker recovers
   * exactly the sequence the aligner was given: the gaps it strips are the
   * gaps the traceback wrote.
   */
  lemma CheckerRecoversSequence(s: seq<int>, t: seq<Dir>, n: nat, first: bool)
    requires Count(t, first) == n <= |s| && AllBases(s)
    ensures Encode(Reverse(Row(s, t, n, first))).Some?
    ensures Ungapped(Encode(Reverse(Row(s, t, n, first))).value) == s[..n]
  {
    var w := Reverse(Row(s, t, n, first));
    RowEncodes(s, t, n, first);
    UngappedEncode(w);
    AlignedRowSpellsSequence(s, t, n, first);
    SpellEncodes(s[..n]);
  }

  /** Every character of a printed alignment row is a nucleotide letter or a gap. */
  lemma RowEncodes(s: seq<int>, t: seq<Dir>, n: nat, first: bool)
    requires Count(t, first) <= n <= |s| && AllBases(s)
    ensures Encode(Reverse(Row(s, t, n, first))).Some?
  {
    var w := Reverse(Row(s, t, n, first));
    forall k | 0 <= k < |w| ensures Code(w[k]).Some? {
      ReverseAt(Row(s, t, n, first), k);
      RowGaps(s, t, n, first, |t| - 1 - k);
    }
  }

  /** Spelling bases out as letters and encoding the letters gives the bases back. */
  lemma SpellEncodes(p: seq<int>)
    requires AllBases(p)
    ensures Encode(Spell(p)) == Some(p)
  {
    assert forall k :: 0 <= k < |p| ==> IsCode(p[k]);
    EncodeLetters(p);
    assert Spell(p) == seq(|p|, k requires 0 <= k < |p| => Letter(p[k]));
  }

  /** The json strings for a flag. */
  function YesNo(b: bool): (r: string)
    ensures r == "yes" <==> b
    ensures r == "no" <==> !b
  {
    if b then "yes" else "no"
  }

  function Digit(d: nat): (c: char)
    requires d < 10
    ensures '0' <= c <= '9' && (c as int) - ('0' as int) == d
  {
    ('0' as int + d) as char
  }

  /** fmpz_get_str in base 10 for a non-negative count: the digits, most significant first. */
  function Decimal(n: nat): (s: string)
    ensures |s| >= 1 && forall k :: 0 <= k < |s| ==> '0' <= s[k] <= '9'
    ensures s[0] == '0' ==> s == "0"
  {
    if n < 10 then [Digit(n)] else Decimal(n / 10) + [Digit(n % 10)]
  }

  /** The value of a string of decimal digits. */
  function ParseDecimal(s: string): nat
    requires forall k :: 0 <= k < |s| ==> '0' <= s[k] <= '9'
  {
    if s == [] then 0 else ParseDecimal(s[..|s| - 1]) * 10 + ((s[|s| - 1] as int) - ('0' as int))
  }

  lemma {:induction false} DecimalRoundTrip(n: nat)
    ensures ParseDecimal(Decimal(n)) == n
  {
    if n >= 10 {
      DecimalRoundTrip(n / 10);
      var s := Decimal(n);
      assert s[..|s| - 1] == Decimal(n / 10);
    }
  }

  /** The "number_of_optimal_alignments" string: the count in decimal, or "undetermined". */
  function NumberString(count: Option<nat>): string {
    match count
    case None => "undetermined"
    case Some(c) => Decimal(c)
  }

  /** How a reader of the report gets the count back. */
  function ParseNumber(s: string): Option<nat> {
    if s != [] && forall k :: 0 <= k < |s| ==> '0' <= s[k] <= '9' then Some(ParseDecimal(s)) else None
  }

  /** The count string always reads back as the count; "undetermined" is never a number. */
  lemma NumberRoundTrip(count: Option<nat>)
    ensures ParseNumber(NumberString(count)) == count
  {
    if count.Some? {
      DecimalRoundTrip(count.value);
    } else {
      assert !('0' <= "undetermined"[0] <= '9');
    }
  }

  /** The checker's json object, with the size of the tableau mask it sized for the judgement. */
  datatype Report = Report(maskRows: nat, maskCols: nat, optimal: string, canonical: string, number: string)

  /**
   * run: both rows are encoded (an unrecognised character aborts, row A
   * first), rows of different lengths abort, the sequences are recovered
   * by sequence_pair_init, the mask is (len_A + 1) x (len_B + 1), and the
   * verdict of the judgement and the count are written out as strings.
   * judge stands for solve followed by breadcrumb_mat_check_alignment, on
   * the two sequences and the two alignment rows; count is the tie count
   * when the solver determined one.
   */
  method Run(textA: string, textB: string,
             judge: (seq<int>, seq<int>, seq<int>, seq<int>) -> Verdict, count: Option<nat>)
    returns (r: Result<Report>)
    ensures r.Abort? <==> Encode(textA).None? || Encode(textB).None? || |textA| != |textB|
    ensures r.Abort? ==> r.reason == if Encode(textA).None? || Encode(textB).None? then UnrecognizedNucleotide else RowLengths
    ensures r.Ok? ==> (
      var A, B := Encode(textA).value, Encode(textB).value;
      var v := judge(Ungapped(A), Ungapped(B), A, B);
      && r.value.maskRows + Gaps(A) == |textA| + 1 && r.value.maskCols + Gaps(B) == |textB| + 1
      && (r.value.optimal == "yes" <==> v.optimal) && r.value.optimal in {"yes", "no"}
      && (r.value.canonical == "yes" <==> v.canonical) && r.value.canonical in {"yes", "no"}
      && ParseNumber(r.value.number) == count)
  {
    var A := new int[|textA|];
    var st := FillSequenceVector(A, textA);
    if st.Aborted? {
      return Abort(UnrecognizedNucleotide);
    }
    var B := new int[|textB|];
    st := FillSequenceVector(B, textB);
    if st.Aborted? {
      return Abort(UnrecognizedNucleotide);
    }
    if A.Length != B.Length {
      return Abort(RowLengths);
    }
    var rowA, rowB := A[..], B[..];
    assert rowA == A[..|textA|] == Encode(textA).value;
    assert rowB == B[..|textB|] == Encode(textB).value;
    var sa, sb, lenA, lenB := SequencePairInit(A, B, A.Length);
    assert A[..A.Length] == rowA && B[..A.Length] == rowB;
    var seqA, seqB := sa[..lenA], sb[..lenB];
    UngappedLength(rowA);
    UngappedLength(rowB);
    var mask := new CrumbMat.Init(lenA + 1, lenB + 1);
    var v := judge(seqA, seqB, rowA, rowB);
    NumberRoundTrip(count);
    r := Ok(Report(mask.nrows, mask.ncols, YesNo(v.optimal), YesNo(v.canonical), NumberString(count)));
  }
}
