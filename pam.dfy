/** The PAM scanner (find_pam_sites in paq1_soporte.py). The pattern is a
    regular expression in which every N stands for the class [ATCG] and
    every other character stands for itself; re.finditer scans it left to
    right and resumes after the end of each match. */
module Pam {
  import opened Dna

  /** A match: its offset in the scanned sequence and the matched text. */
  datatype Site = Site(offset: nat, text: string)

  predicate CharMatches(p: char, c: char) {
    if p == 'N' then IsBase(c) else c == p
  }

  predicate MatchesAt(s: string, pam: string, i: nat) {
    i + |pam| <= |s| && forall j :: 0 <= j < |pam| ==> CharMatches(pam[j], s[i + j])
  }

  /** How far the scan moves past a match: its length, or one position for
      the empty pattern, whose empty matches sit at every position. */
  function Advance(pam: string): nat {
    if |pam| == 0 then 1 else |pam|
  }

  /** A site that is a match carrying its own text. */
  predicate IsSite(s: string, pam: string, site: Site) {
    MatchesAt(s, pam, site.offset) && site.text == s[site.offset..site.offset + |pam|]
  }

  /** No match starts in [lo, hi). */
  ghost predicate NoMatchIn(s: string, pam: string, lo: nat, hi: nat) {
    forall p: nat :: lo <= p < hi ==> !MatchesAt(s, pam, p)
  }

  /** Every reported site, from position i on, is a match with its own text. */
  ghost predicate Sound(s: string, pam: string, i: nat, r: seq<Site>) {
    forall k :: 0 <= k < |r| ==> i <= r[k].offset && IsSite(s, pam, r[k])
  }

  /** Sites come in order and do not overlap. */
  ghost predicate Disjoint(pam: string, r: seq<Site>) {
    forall k, l :: 0 <= k < l < |r| ==> r[k].offset + Advance(pam) <= r[l].offset
  }

  /** Nothing matches between i and the first site, between the end of a
      site and the start of the next, or after the last site: each site is
      the leftmost match the scan could still find. */
  ghost predicate Leftmost(s: string, pam: string, i: nat, r: seq<Site>) {
    (|r| == 0 ==> NoMatchIn(s, pam, i, |s| + 1))
    && (|r| > 0 ==> NoMatchIn(s, pam, i, r[0].offset)
                    && NoMatchIn(s, pam, r[|r| - 1].offset + Advance(pam), |s| + 1))
    && (forall k, l {:trigger r[k], r[l]} :: 0 <= k && l == k + 1 && l < |r| ==>
          NoMatchIn(s, pam, r[k].offset + Advance(pam), r[l].offset))
  }

  /** The result of a leftmost, non-overlapping scan of s from position i. */
  ghost predicate IsScan(s: string, pam: string, i: nat, r: seq<Site>) {
    Sound(s, pam, i, r) && Disjoint(pam, r) && Leftmost(s, pam, i, r)
  }

  function ScanFrom(s: string, pam: string, i: nat): seq<Site>
    requires i <= |s| + 1
    decreases |s| + 1 - i
  {
    if i + |pam| > |s| then []
    else if MatchesAt(s, pam, i) then [Site(i, s[i..i + |pam|])] + ScanFrom(s, pam, i + Advance(pam))
    else ScanFrom(s, pam, i + 1)
  }

  lemma {:induction false} ScanFromIsScan(s: string, pam: string, i: nat)
    requires i <= |s| + 1
    ensures IsScan(s, pam, i, ScanFrom(s, pam, i))
    decreases |s| + 1 - i, 1
  {
    if i + |pam| > |s| {
      assert ScanFrom(s, pam, i) == [];
      assert NoMatchIn(s, pam, i, |s| + 1);
    } else if MatchesAt(s, pam, i) {
      ScanCons(s, pam, i, ScanFrom(s, pam, i + Advance(pam)));
    } else {
      ScanSkip(s, pam, i, ScanFrom(s, pam, i + 1));
    }
  }

  /** A match at i followed by the scan from its end is the scan from i. */
  lemma {:induction false} ScanCons(s: string, pam: string, i: nat, rest: seq<Site>)
    requires MatchesAt(s, pam, i) && rest == ScanFrom(s, pam, i + Advance(pam))
    ensures IsScan(s, pam, i, [Site(i, s[i..i + |pam|])] + rest)
    decreases |s| + 1 - i, 0
  {
    ScanFromIsScan(s, pam, i + Advance(pam));
    ConsSound(s, pam, i, rest);
    ConsDisjoint(s, pam, i, rest);
    ConsLeftmost(s, pam, i, rest);
  }

  lemma ConsSound(s: string, pam: string, i: nat, rest: seq<Site>)
    requires MatchesAt(s, pam, i) && Sound(s, pam, i + Advance(pam), rest)
    ensures Sound(s, pam, i, [Site(i, s[i..i + |pam|])] + rest)
  {
    var r := [Site(i, s[i..i + |pam|])] + rest;
    assert forall k :: 0 < k < |r| ==> r[k] == rest[k - 1];
    assert IsSite(s, pam, r[0]);
  }

  lemma ConsDisjoint(s: string, pam: string, i: nat, rest: seq<Site>)
    requires MatchesAt(s, pam, i) && Sound(s, pam, i + Advance(pam), rest) && Disjoint(pam, rest)
    ensures Disjoint(pam, [Site(i, s[i..i + |pam|])] + rest)
  {
    var r := [Site(i, s[i..i + |pam|])] + rest;
    forall k, l | 0 <= k < l < |r|
      ensures r[k].offset + Advance(pam) <= r[l].offset
    {
      assert r[l] == rest[l - 1];
      if k > 0 { assert r[k] == rest[k - 1]; }
    }
  }

  lemma ConsLeftmost(s: string, pam: string, i: nat, rest: seq<Site>)
    requires MatchesAt(s, pam, i) && Leftmost(s, pam, i + Advance(pam), rest)
    ensures Leftmost(s, pam, i, [Site(i, s[i..i + |pam|])] + rest)
  {
    var next := i + Advance(pam);
    var r := [Site(i, s[i..i + |pam|])] + rest;
    assert NoMatchIn(s, pam, i, r[0].offset);
    if |rest| == 0 {
      assert NoMatchIn(s, pam, next, |s| + 1);
    } else {
      assert r[|r| - 1] == rest[|rest| - 1];
    }
    forall k, l | 0 <= k && l == k + 1 && l < |r|
      ensures NoMatchIn(s, pam, r[k].offset + Advance(pam), r[l].offset)
    {
      if k == 0 {
        assert r[l] == rest[0];
      } else {
        assert r[k] == rest[k - 1] && r[l] == rest[l - 1];
      }
    }
  }

  /** No match at i: the scan from i + 1 is the scan from i. */
  lemma {:induction false} ScanSkip(s: string, pam: string, i: nat, rest: seq<Site>)
    requires i + |pam| <= |s| && !MatchesAt(s, pam, i) && rest == ScanFrom(s, pam, i + 1)
    ensures IsScan(s, pam, i, rest)
    decreases |s| + 1 - i, 0
  {
    ScanFromIsScan(s, pam, i + 1);
    if |rest| == 0 {
      assert NoMatchIn(s, pam, i + 1, |s| + 1);
      assert NoMatchIn(s, pam, i, |s| + 1);
    } else {
      assert NoMatchIn(s, pam, i + 1, rest[0].offset);
      assert NoMatchIn(s, pam, i, rest[0].offset);
    }
  }

  /** find_pam_sites(dna_sequence, pam): every site is a match carrying its
      own text; sites are in order and do not overlap; nothing matches
      before the first site, between the end of one site and the start of
      the next, or after the last. */
  function FindPamSites(s: string, pam: string): (r: seq<Site>)
    ensures forall k :: 0 <= k < |r| ==> IsSite(s, pam, r[k])
    ensures forall k, l :: 0 <= k < l < |r| ==> r[k].offset + Advance(pam) <= r[l].offset
    ensures Leftmost(s, pam, 0, r)
  {
    ScanFromIsScan(s, pam, 0);
    ScanFrom(s, pam, 0)
  }

  /** Every match is reported or lies inside a reported site. */
  lemma MatchCovered(s: string, pam: string, p: nat)
    requires MatchesAt(s, pam, p)
    ensures var r := FindPamSites(s, pam);
            exists k :: 0 <= k < |r| && r[k].offset <= p < r[k].offset + Advance(pam)
  {
    var r := FindPamSites(s, pam);
    if |r| == 0 || p < r[0].offset {
      assert false;
    }
    var k := 0;
    while k + 1 < |r| && r[k + 1].offset <= p
      invariant 0 <= k < |r| && r[k].offset <= p
    {
      k := k + 1;
    }
    if p >= r[k].offset + Advance(pam) {
      assert false;
    }
  }

  /** After its first site, a scan is a scan from the end of that site. */
  lemma ScanTail(s: string, pam: string, i: nat, r: seq<Site>)
    requires IsScan(s, pam, i, r) && |r| > 0
    ensures IsScan(s, pam, r[0].offset + Advance(pam), r[1..])
  {
    var next := r[0].offset + Advance(pam);
    var t := r[1..];
    assert forall k :: 0 <= k < |t| ==> t[k] == r[k + 1];
    assert Sound(s, pam, next, t);
    assert Leftmost(s, pam, next, t) by {
      if |t| == 0 {
        assert NoMatchIn(s, pam, r[|r| - 1].offset + Advance(pam), |s| + 1);
      } else {
        assert NoMatchIn(s, pam, r[0].offset + Advance(pam), r[1].offset);
        assert t[|t| - 1] == r[|r| - 1];
      }
      forall k, l | 0 <= k && l == k + 1 && l < |t|
        ensures NoMatchIn(s, pam, t[k].offset + Advance(pam), t[l].offset)
      {
        assert t[k] == r[k + 1] && t[l] == r[l + 1];
      }
    }
  }

  /** The properties of a scan leave no freedom: any list of sites that
      has them is the list the scan returns. */
  lemma ScanUnique(s: string, pam: string, i: nat, r1: seq<Site>, r2: seq<Site>)
    requires i <= |s| + 1
    requires IsScan(s, pam, i, r1) && IsScan(s, pam, i, r2)
    ensures r1 == r2
  {
    ScanDetermined(s, pam, i, r1);
    ScanDetermined(s, pam, i, r2);
  }

  /** A list of sites with the properties of a scan from i is ScanFrom(i). */
  lemma ScanDetermined(s: string, pam: string, i: nat, r: seq<Site>)
    requires i <= |s| + 1 && IsScan(s, pam, i, r)
    ensures r == ScanFrom(s, pam, i)
  {
    ScanIsChain(s, pam, i, r);
    ChainDetermined(s, pam, i, r);
  }

  /** A scan told one site at a time: the first site is the first match
      from i, and the rest is a scan from the end of that site. */
  ghost predicate IsChain(s: string, pam: string, i: nat, r: seq<Site>)
    decreases |r|
  {
    if |r| == 0 then NoMatchIn(s, pam, i, |s| + 1)
    else i <= r[0].offset && IsSite(s, pam, r[0]) && NoMatchIn(s, pam, i, r[0].offset)
         && IsChain(s, pam, r[0].offset + Advance(pam), r[1..])
  }

  lemma {:induction false} ScanIsChain(s: string, pam: string, i: nat, r: seq<Site>)
    requires IsScan(s, pam, i, r)
    ensures IsChain(s, pam, i, r)
    decreases |r|
  {
    ScanHead(s, pam, i, r);
    if |r| > 0 {
      ScanTail(s, pam, i, r);
      ScanIsChain(s, pam, r[0].offset + Advance(pam), r[1..]);
      ChainCons(s, pam, i, r);
    }
  }

  /** What a scan says about its first site, or about an empty result. */
  lemma ScanHead(s: string, pam: string, i: nat, r: seq<Site>)
    requires IsScan(s, pam, i, r)
    ensures |r| == 0 ==> NoMatchIn(s, pam, i, |s| + 1)
    ensures |r| > 0 ==> i <= r[0].offset && IsSite(s, pam, r[0]) && NoMatchIn(s, pam, i, r[0].offset)
  {
  }

  /** A first match from i followed by a chain from its end is a chain. */
  lemma ChainCons(s: string, pam: string, i: nat, r: seq<Site>)
    requires |r| > 0 && i <= r[0].offset && IsSite(s, pam, r[0]) && NoMatchIn(s, pam, i, r[0].offset)
    requires IsChain(s, pam, r[0].offset + Advance(pam), r[1..])
    ensures IsChain(s, pam, i, r)
  {
  }

  lemma {:induction false} ChainDetermined(s: string, pam: string, i: nat, r: seq<Site>)
    requires i <= |s| + 1 && IsChain(s, pam, i, r)
    ensures r == ScanFrom(s, pam, i)
    decreases |r|
  {
    if |r| == 0 {
      SkipTo(s, pam, i, |s| + 1);
    } else {
      ChainHead(s, pam, i, r);
      ChainDetermined(s, pam, r[0].offset + Advance(pam), r[1..]);
      ConsIsScanFrom(s, pam, i, r);
    }
  }

  /** The first site of a chain is the first match from i, and the rest is
      a chain from its end. */
  lemma ChainHead(s: string, pam: string, i: nat, r: seq<Site>)
    requires |r| > 0 && IsChain(s, pam, i, r)
    ensures i <= r[0].offset && IsSite(s, pam, r[0]) && NoMatchIn(s, pam, i, r[0].offset)
    ensures r[0].offset + Advance(pam) <= |s| + 1
    ensures IsChain(s, pam, r[0].offset + Advance(pam), r[1..])
  {
  }

  /** A first site that is the first match from i, followed by the scan
      from its end, is the scan from i. */
  lemma ConsIsScanFrom(s: string, pam: string, i: nat, r: seq<Site>)
    requires |r| > 0 && i <= r[0].offset && IsSite(s, pam, r[0]) && NoMatchIn(s, pam, i, r[0].offset)
    requires r[1..] == ScanFrom(s, pam, r[0].offset + Advance(pam))
    ensures r == ScanFrom(s, pam, i)
  {
    var p := r[0].offset;
    calc {
      r;
      [r[0]] + r[1..];
      { assert r[0] == Site(p, r[0].text); }
      [Site(p, s[p..p + |pam|])] + ScanFrom(s, pam, p + Advance(pam));
      { ScanAtMatch(s, pam, p); }
      ScanFrom(s, pam, p);
      { SkipTo(s, pam, i, p); }
      ScanFrom(s, pam, i);
    }
  }

  /** At a match, the scan reports it and resumes after it. */
  lemma ScanAtMatch(s: string, pam: string, p: nat)
    requires MatchesAt(s, pam, p)
    ensures ScanFrom(s, pam, p) == [Site(p, s[p..p + |pam|])] + ScanFrom(s, pam, p + Advance(pam))
  {
  }

  /** With no match in [i, p), the scan from i is the scan from p. */
  lemma {:induction false} SkipTo(s: string, pam: string, i: nat, p: nat)
    requires i <= p <= |s| + 1 && NoMatchIn(s, pam, i, p)
    ensures ScanFrom(s, pam, i) == ScanFrom(s, pam, p)
    decreases p - i
  {
    if i < p && i + |pam| <= |s| {
      assert !MatchesAt(s, pam, i);
      SkipTo(s, pam, i + 1, p);
    }
  }

  /** The contract of find_pam_sites determines its result. */
  lemma PamSitesUnique(s: string, pam: string, r: seq<Site>)
    requires IsScan(s, pam, 0, r)
    ensures r == FindPamSites(s, pam)
  {
    ScanDetermined(s, pam, 0, r);
  }

  /** A worked example: NGG in AAAGGTAGGCC matches AGG at offsets 2 and 6. */
  lemma ExampleTwoSites()
    ensures FindPamSites("AAAGGTAGGCC", "NGG") == [Site(2, "AGG"), Site(6, "AGG")]
  {
    ExampleScan();
  }

  /** The scan of the worked example, one position at a time. */
  lemma ExampleScan()
    ensures ScanFrom("AAAGGTAGGCC", "NGG", 0) == [Site(2, "AGG"), Site(6, "AGG")]
  {
    ExampleFirstSite();
    ExampleSecondSite();
  }

  /** Positions 0 and 1 do not match and position 2 does, so the scan of
      the example reports AGG at 2 and resumes at 5. */
  lemma ExampleFirstSite()
    ensures ScanFrom("AAAGGTAGGCC", "NGG", 0) == [Site(2, "AGG")] + ScanFrom("AAAGGTAGGCC", "NGG", 5)
  {
    var s, pam := "AAAGGTAGGCC", "NGG";
    assert !MatchesAt(s, pam, 0) by { assert !CharMatches(pam[1], s[1]); }
    assert !MatchesAt(s, pam, 1) by { assert !CharMatches(pam[1], s[2]); }
    assert MatchesAt(s, pam, 2) && s[2..5] == "AGG";
    assert ScanFrom(s, pam, 1) == ScanFrom(s, pam, 2);
  }

  /** From position 5 on, the example has a single match, AGG at 6. */
  lemma ExampleSecondSite()
    ensures ScanFrom("AAAGGTAGGCC", "NGG", 5) == [Site(6, "AGG")]
  {
    var s, pam := "AAAGGTAGGCC", "NGG";
    assert !MatchesAt(s, pam, 5) by { assert !CharMatches(pam[1], s[6]); }
    assert MatchesAt(s, pam, 6) && s[6..9] == "AGG";
    assert ScanFrom(s, pam, 9) == [];
  }

  /** Overlapping matches are not reported: in AGGG the match GGG at offset
      1 overlaps the match AGG at offset 0. */
  lemma ExampleNoOverlap()
    ensures MatchesAt("AGGG", "NGG", 1)
    ensures FindPamSites("AGGG", "NGG") == [Site(0, "AGG")]
  {
    var s, pam := "AGGG", "NGG";
    assert MatchesAt(s, pam, 0) && s[0..3] == "AGG";
    assert ScanFrom(s, pam, 3) == [];
  }
}
