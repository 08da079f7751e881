/** The DNA alphabet, the reverse complement and the one-hot encoding
    (paq1_percent.py). */
module Dna {
  import opened Outcome

  /** A character that the complement table and the one-hot table know. */
  predicate IsBase(c: char) {
    c == 'A' || c == 'C' || c == 'G' || c == 'T'
  }

  /** Every character is a base, so no lookup in either table raises. */
  predicate IsDna(s: string) {
    forall i :: 0 <= i < |s| ==> IsBase(s[i])
  }

  /** The complement table {A: T, T: A, C: G, G: C}. */
  function Complement(c: char): (r: char)
    requires IsBase(c)
    ensures IsBase(r) && r != c
  {
    match c
    case 'A' => 'T'
    case 'T' => 'A'
    case 'C' => 'G'
    case _ => 'C'
  }

  lemma ComplementInvolutive(c: char)
    requires IsBase(c)
    ensures Complement(Complement(c)) == c
  {
  }

  /** The reverse complement: the input is walked from its last character to
      its first, each character is looked up in the complement table, and
      the first lookup that fails raises KeyError for that character. */
  function ReverseComplement(s: string): (r: Result<string>)
    ensures r.Ok? <==> IsDna(s)
    ensures r.Ok? ==> |r.value| == |s| && IsDna(r.value)
    ensures r.Ok? ==> forall i :: 0 <= i < |s| ==> r.value[i] == Complement(s[|s| - 1 - i])
    decreases |s|
  {
    if |s| == 0 then Ok("")
    else
      var last := s[|s| - 1];
      if !IsBase(last) then Err(UnknownBase(last))
      else
        match ReverseComplement(s[..|s| - 1])
        case Err(e) => Err(e)
        case Ok(t) => Ok([Complement(last)] + t)
  }

  /** The position (from the end) of the character at which the reverse
      complement fails: the last character that is not a base. */
  lemma {:induction false} ReverseComplementError(s: string, k: nat)
    requires k < |s| && !IsBase(s[k])
    requires forall j :: k < j < |s| ==> IsBase(s[j])
    ensures ReverseComplement(s) == Err(UnknownBase(s[k]))
    decreases |s|
  {
    if k < |s| - 1 {
      ReverseComplementError(s[..|s| - 1], k);
    }
  }

  /** Taking the reverse complement twice gives back the input. */
  lemma {:induction false} ReverseComplementInvolutive(s: string)
    requires IsDna(s)
    ensures ReverseComplement(ReverseComplement(s).value) == Ok(s)
  {
    var t := ReverseComplement(s).value;
    var u := ReverseComplement(t).value;
    assert |u| == |s|;
    forall i | 0 <= i < |s|
      ensures u[i] == s[i]
    {
      assert u[i] == Complement(t[|s| - 1 - i]);
      ComplementInvolutive(s[i]);
    }
    assert u == s;
  }

  /** The reverse complement of a window is the mirrored window of the
      reverse complement. */
  lemma {:induction false} ReverseComplementWindow(s: string, lo: nat, hi: nat)
    requires IsDna(s) && lo <= hi <= |s|
    ensures ReverseComplement(s[lo..hi]) == Ok(ReverseComplement(s).value[|s| - hi..|s| - lo])
  {
    var w := s[lo..hi];
    assert IsDna(w) by {
      forall i | 0 <= i < |w| ensures IsBase(w[i]) { assert w[i] == s[lo + i]; }
    }
    var a := ReverseComplement(w).value;
    var b := ReverseComplement(s).value[|s| - hi..|s| - lo];
    assert |a| == |b|;
    forall i | 0 <= i < |a|
      ensures a[i] == b[i]
    {
      assert a[i] == Complement(w[|w| - 1 - i]);
      assert w[|w| - 1 - i] == s[hi - 1 - i];
      assert b[i] == ReverseComplement(s).value[|s| - hi + i];
    }
    assert a == b;
  }

  /** The column of the one-hot block that is set for a base. */
  function BaseIndex(c: char): (k: nat)
    requires IsBase(c)
    ensures k < 4
  {
    match c
    case 'A' => 0
    case 'C' => 1
    case 'G' => 2
    case _ => 3
  }

  function Block(c: char): (b: seq<int>)
    requires IsBase(c)
    ensures |b| == 4
    ensures forall j :: 0 <= j < 4 ==> b[j] == if j == BaseIndex(c) then 1 else 0
  {
    match c
    case 'A' => [1, 0, 0, 0]
    case 'C' => [0, 1, 0, 0]
    case 'G' => [0, 0, 1, 0]
    case _ => [0, 0, 0, 1]
  }

  /** The one-hot encoding: one four-element block per base, in sequence
      order; the first character that is not a base raises KeyError. */
  function OneHot(s: string): (r: Result<seq<int>>)
    ensures r.Ok? <==> IsDna(s)
    ensures r.Ok? ==> |r.value| == 4 * |s|
    decreases |s|
  {
    if |s| == 0 then Ok([])
    else if !IsBase(s[0]) then Err(UnknownBase(s[0]))
    else
      match OneHot(s[1..])
      case Err(e) => Err(e)
      case Ok(v) => Ok(Block(s[0]) + v)
  }

  /** Block i of the encoding holds a single 1, in the column of s[i]. */
  lemma {:induction false} OneHotAt(s: string, i: nat, j: nat)
    requires IsDna(s) && i < |s| && j < 4
    ensures OneHot(s).value[4 * i + j] == if j == BaseIndex(s[i]) then 1 else 0
    decreases |s|
  {
    var v := OneHot(s[1..]).value;
    assert OneHot(s).value == Block(s[0]) + v;
    if i > 0 {
      OneHotAt(s[1..], i - 1, j);
      assert 4 * i + j == 4 + (4 * (i - 1) + j);
    }
  }

  /** The first character that is not a base is the one reported. */
  lemma {:induction false} OneHotError(s: string, k: nat)
    requires k < |s| && !IsBase(s[k])
    requires forall j :: 0 <= j < k ==> IsBase(s[j])
    ensures OneHot(s) == Err(UnknownBase(s[k]))
    decreases |s|
  {
    if k > 0 {
      OneHotError(s[1..], k - 1);
    }
  }

  /** Reads a one-hot vector back into bases, block by block. */
  function Decode(v: seq<int>): (s: string)
    requires |v| % 4 == 0
    ensures |s| == |v| / 4
    decreases |v|
  {
    if |v| == 0 then ""
    else
      var c := if v[0] == 1 then 'A' else if v[1] == 1 then 'C' else if v[2] == 1 then 'G' else 'T';
      [c] + Decode(v[4..])
  }

  /** The encoding loses nothing: decoding it gives back the sequence. */
  lemma {:induction false} DecodeOneHot(s: string)
    requires IsDna(s)
    ensures Decode(OneHot(s).value) == s
    decreases |s|
  {
    if |s| > 0 {
      var v := OneHot(s).value;
      assert v == Block(s[0]) + OneHot(s[1..]).value;
      assert v[4..] == OneHot(s[1..]).value;
      DecodeOneHot(s[1..]);
    }
  }
}
