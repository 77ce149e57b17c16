/**
 * Nucleotide codes (jsonutil.c): A, C, G, T as 0..3, the gap '-' as -1.
 * Ambiguity letters such as N are read as A; anything that is neither a
 * letter nor '-' is fatal.
 */
module Nucleotides {
  import opened Basics

  /** isalpha() in the C locale. */
  predicate IsAlpha(c: char) {
    'A' <= c <= 'Z' || 'a' <= c <= 'z'
  }

  /** A code the encoder can produce. */
  predicate IsCode(v: int) {
    -1 <= v <= 3
  }

  /** A code that stands for a nucleotide rather than a gap. */
  predicate IsBase(v: int) {
    0 <= v <= 3
  }

  /** The code of one character, None for a character the encoder rejects. */
  function Code(c: char): (r: Option<int>)
    ensures r.Some? ==> IsCode(r.value)
    ensures r == Some(-1) <==> c == '-'
    ensures r.None? <==> !IsAlpha(c) && c != '-'
  {
    match c
    case 'A' => Some(0) case 'a' => Some(0)
    case 'C' => Some(1) case 'c' => Some(1)
    case 'G' => Some(2) case 'g' => Some(2)
    case 'T' => Some(3) case 't' => Some(3)
    case '-' => Some(-1)
    case _ => if IsAlpha(c) then Some(0) else None
  }

  /** The character the tracebacks print for a code: "ACGT" for 0..3, '-' for a gap. */
  function Letter(v: int): (c: char)
    requires IsCode(v)
    ensures c == '-' <==> v == -1
  {
    if v == -1 then '-' else "ACGT"[v]
  }

  /** Printing a code and reading it back gives the code. */
  lemma CodeOfLetter(v: int)
    requires IsCode(v)
    ensures Code(Letter(v)) == Some(v)
  {
  }

  /** Reading a character and printing its code gives the upper-case base (A for ambiguity letters). */
  lemma LetterOfCode(c: char)
    requires c in "ACGTacgt-"
    ensures Code(c).Some? && (Letter(Code(c).value) == c || Letter(Code(c).value) == c - 'a' as char + 'A' as char)
  {
  }

  /** The code vector of a whole string, or None when some character is rejected. */
  function Encode(s: seq<char>): (r: Option<seq<int>>)
    ensures r.Some? <==> forall k :: 0 <= k < |s| ==> Code(s[k]).Some?
    ensures r.Some? ==> |r.value| == |s| && forall k :: 0 <= k < |s| ==> Some(r.value[k]) == Code(s[k])
  {
    if s == [] then Some([])
    else
      var prefix := Encode(s[..|s| - 1]);
      var last := Code(s[|s| - 1]);
      if prefix.None? || last.None? then None else Some(prefix.value + [last.value])
  }

  /** Printing a code vector and encoding the text gives the vector back. */
  lemma EncodeLetters(v: seq<int>)
    requires forall k :: 0 <= k < |v| ==> IsCode(v[k])
    ensures Encode(seq(|v|, k requires 0 <= k < |v| => Letter(v[k]))) == Some(v)
  {
    var s := seq(|v|, k requires 0 <= k < |v| => Letter(v[k]));
    forall k | 0 <= k < |v| ensures Code(s[k]) == Some(v[k]) {
      CodeOfLetter(v[k]);
    }
    var r := Encode(s).value;
    assert |r| == |v| && forall k :: 0 <= k < |v| ==> r[k] == v[k];
    assert r == v;
  }

  /**
   * Writes the code of s[k] into v[k] for every k, or stops at the first
   * rejected character, which the C code reports before calling abort().
   */
  method FillSequenceVector(v: array<int>, s: seq<char>) returns (st: Status)
    requires |s| <= v.Length
    modifies v
    ensures st.Done? <==> Encode(s).Some?
    ensures st.Done? ==> v[..|s|] == Encode(s).value
    ensures v[|s|..] == old(v[|s|..])
  {
    var i := 0;
    while i < |s|
      invariant 0 <= i <= |s|
      invariant Encode(s[..i]).Some? && v[..i] == Encode(s[..i]).value
      invariant v[|s|..] == old(v[|s|..])
    {
      match Code(s[i])
      case None =>
        assert !(forall k :: 0 <= k < |s| ==> Code(s[k]).Some?) by {
          assert Code(s[i]).None?;
        }
        return Aborted("unrecognized nucleotide");
      case Some(code) =>
        v[i] := code;
        assert s[..i + 1][..i] == s[..i];
      i := i + 1;
    }
    assert s[..|s|] == s;
    return Done;
  }
}
