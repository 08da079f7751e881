/** GC content and ranged extraction over a FASTA file (paq1_soporte.py).
    A file is the sequence of its lines as read, each possibly ending in a
    line break; the file system is a map from path to lines. */
module Fasta {

  function Max(a: int, b: int): int { if a < b then b else a }
  function Min(a: int, b: int): int { if a < b then a else b }

  /** Python's str.isspace. */
  predicate IsSpace(c: char) {
    c == ' ' || ('\t' <= c <= '\r') || ('\U{1C}' <= c <= '\U{1F}') || c == '\U{85}' || c == '\U{A0}'
    || c == '\U{1680}' || ('\U{2000}' <= c <= '\U{200A}') || c == '\U{2028}' || c == '\U{2029}'
    || c == '\U{202F}' || c == '\U{205F}' || c == '\U{3000}'
  }

  function StripLeft(s: string): string {
    if |s| > 0 && IsSpace(s[0]) then StripLeft(s[1..]) else s
  }

  function StripRight(s: string): string {
    if |s| > 0 && IsSpace(s[|s| - 1]) then StripRight(s[..|s| - 1]) else s
  }

  /** Python's str.strip(): leading and trailing whitespace removed. */
  function Strip(s: string): string {
    StripRight(StripLeft(s))
  }

  /** Python's str.upper(), on the ASCII letters. */
  function UpperChar(c: char): char {
    if 'a' <= c <= 'z' then (c as int - 32) as char else c
  }

  function LowerChar(c: char): char {
    if 'A' <= c <= 'Z' then (c as int + 32) as char else c
  }

  function Upper(s: string): (r: string)
    ensures |r| == |s|
  {
    seq(|s|, i requires 0 <= i < |s| => UpperChar(s[i]))
  }

  function Lower(s: string): (r: string)
    ensures |r| == |s|
  {
    seq(|s|, i requires 0 <= i < |s| => LowerChar(s[i]))
  }

  /** s.count('G') + s.count('C'): case-sensitive. */
  function CountGc(s: string): nat
    decreases |s|
  {
    if |s| == 0 then 0
    else CountGc(s[..|s| - 1]) + (if s[|s| - 1] == 'G' || s[|s| - 1] == 'C' then 1 else 0)
  }

  lemma {:induction false} CountGcAppend(a: string, b: string)
    ensures CountGc(a + b) == CountGc(a) + CountGc(b)
    decreases |b|
  {
    if |b| > 0 {
      var ab := a + b;
      assert ab[..|ab| - 1] == a + b[..|b| - 1];
      assert ab[|ab| - 1] == b[|b| - 1];
      CountGcAppend(a, b[..|b| - 1]);
    } else {
      assert a + b == a;
    }
  }

  lemma {:induction false} CountGcBound(s: string)
    ensures CountGc(s) <= |s|
    decreases |s|
  {
    if |s| > 0 {
      CountGcBound(s[..|s| - 1]);
    }
  }

  /** 100 * count / total as an exact real; an empty total gives 0. */
  function Percent(count: nat, total: nat): (r: real)
    requires count <= total
    ensures 0.0 <= r <= 100.0
  {
    if total == 0 then 0.0
    else
      PercentBound(count, total);
      100.0 * (count as real) / (total as real)
  }

  lemma PercentBound(count: nat, total: nat)
    requires count <= total && 0 < total
    ensures 0.0 <= 100.0 * (count as real) / (total as real) <= 100.0
  {
    var t := total as real;
    var q := 100.0 * (count as real) / t;
    assert q * t == 100.0 * (count as real);
    assert (100.0 - q) * t == 100.0 * (t - count as real);
  }

  /** The GC percentage of a sequence held in memory: it is upper-cased
      first, and the empty sequence gives 0. */
  function GcPercent(s: string): (r: real)
    ensures 0.0 <= r <= 100.0
    ensures |s| == 0 ==> r == 0.0
  {
    CountGcBound(Upper(s));
    Percent(CountGc(Upper(s)), |s|)
  }

  lemma UpperAppend(a: string, b: string)
    ensures Upper(a + b) == Upper(a) + Upper(b)
  {
  }

  /** The number of G, C, g and c characters: the count that GcPercent is
      a percentage of, whatever the case of the input. */
  function CountGcAnyCase(s: string): nat
    decreases |s|
  {
    if |s| == 0 then 0
    else CountGcAnyCase(s[..|s| - 1]) + (if s[|s| - 1] in "GCgc" then 1 else 0)
  }

  lemma {:induction false} CountGcUpper(s: string)
    ensures CountGc(Upper(s)) == CountGcAnyCase(s)
    decreases |s|
  {
    if |s| > 0 {
      assert Upper(s)[..|s| - 1] == Upper(s[..|s| - 1]);
      CountGcUpper(s[..|s| - 1]);
    }
  }

  /** GC content is 100 * (number of G/C in either case) / length. */
  lemma GcPercentCounts(s: string)
    ensures CountGcAnyCase(s) <= |s| && GcPercent(s) == Percent(CountGcAnyCase(s), |s|)
  {
    CountGcUpper(s);
    CountGcBound(Upper(s));
  }

  /** GC content does not depend on case. */
  lemma GcPercentCaseInsensitive(s: string)
    ensures GcPercent(Lower(s)) == GcPercent(s) && GcPercent(Upper(s)) == GcPercent(s)
  {
    assert Upper(Lower(s)) == Upper(s);
    assert Upper(Upper(s)) == Upper(s);
  }

  /** For a 20-nt window the percentage is exactly five times the count. */
  lemma GcPercentTwenty(s: string)
    requires |s| == 20
    ensures GcPercent(s) == 5.0 * (CountGcAnyCase(s) as real)
  {
    GcPercentCounts(s);
  }

  predicate IsHeader(line: string) {
    |line| > 0 && line[0] == '>'
  }

  /** What one line adds to the sequence: nothing for a header (tested
      before stripping), otherwise the stripped line. */
  function LineBases(line: string): string {
    if IsHeader(line) then "" else Strip(line)
  }

  /** The sequence a FASTA file holds: its non-header lines, stripped and
      joined. */
  function Sequence(lines: seq<string>): string
    decreases |lines|
  {
    if |lines| == 0 then ""
    else Sequence(lines[..|lines| - 1]) + LineBases(lines[|lines| - 1])
  }

  lemma {:induction false} SequenceAppend(a: seq<string>, b: seq<string>)
    ensures Sequence(a + b) == Sequence(a) + Sequence(b)
    decreases |b|
  {
    if |b| > 0 {
      var ab, front, last := a + b, b[..|b| - 1], b[|b| - 1];
      assert ab[..|ab| - 1] == a + front;
      assert ab[|ab| - 1] == last;
      SequenceAppend(a, front);
      assert Sequence(ab) == Sequence(a) + Sequence(front) + LineBases(last);
      assert Sequence(b) == Sequence(front) + LineBases(last);
    } else {
      assert a + b == a;
    }
  }

  /** A header line between two sequence lines is skipped and the lines on
      either side are joined. */
  lemma {:induction false} HeaderSkipped(a: seq<string>, h: string, b: seq<string>)
    requires IsHeader(h)
    ensures Sequence(a + [h] + b) == Sequence(a) + Sequence(b)
  {
    var ah := a + [h];
    assert ah[..|ah| - 1] == a && ah[|ah| - 1] == h;
    assert Sequence(ah) == Sequence(a);
    SequenceAppend(ah, b);
  }

  lemma {:induction false} SequenceStep(lines: seq<string>, i: nat)
    requires i < |lines|
    ensures Sequence(lines[..i + 1]) == Sequence(lines[..i]) + LineBases(lines[i])
  {
    assert lines[..i + 1][..i] == lines[..i];
  }

  /** The file branch of gc_content: header lines skipped, lengths and G/C
      counts summed over the stripped, upper-cased lines. */
  method GcOfLines(lines: seq<string>) returns (r: real)
    ensures r == GcPercent(Sequence(lines))
  {
    var totalLength, gcCount := 0, 0;
    assert lines[..|lines|] == lines;
    for i := 0 to |lines|
      invariant totalLength == |Sequence(lines[..i])|
      invariant gcCount == CountGc(Upper(Sequence(lines[..i])))
    {
      var line := lines[i];
      if IsHeader(line) {
        HeaderStep(lines, i);
        continue;
      }
      LineStep(lines, i);
      var clean := Upper(Strip(line));
      UpperAppend(Sequence(lines[..i]), Strip(line));
      CountGcAppend(Upper(Sequence(lines[..i])), clean);
      totalLength := totalLength + |clean|;
      gcCount := gcCount + CountGc(clean);
    }
    if totalLength == 0 {
      return 0.0;
    }
    GcPercentOf(Sequence(lines), gcCount, totalLength);
    r := 100.0 * (gcCount as real) / (totalLength as real);
  }

  lemma GcPercentOf(s: string, count: nat, total: nat)
    requires total == |s| > 0 && count == CountGc(Upper(s))
    ensures GcPercent(s) == 100.0 * (count as real) / (total as real)
  {
  }

  predicate EndsWith(s: string, suffix: string) {
    |suffix| <= |s| && s[|s| - |suffix|..] == suffix
  }

  /** gc_content treats its argument as a path when it ends in one of these. */
  predicate IsFileName(arg: string) {
    EndsWith(arg, ".fasta") || EndsWith(arg, ".fa") || EndsWith(arg, ".txt")
  }

  lemma DnaIsNoFileName(s: string)
    requires forall i :: 0 <= i < |s| ==> s[i] in "ACGT"
    ensures !IsFileName(s)
  {
    NoDotSuffix(s, ".fasta");
    NoDotSuffix(s, ".fa");
    NoDotSuffix(s, ".txt");
  }

  /** A string of bases does not end in a suffix that starts with a dot. */
  lemma NoDotSuffix(s: string, suffix: string)
    requires forall i :: 0 <= i < |s| ==> s[i] in "ACGT"
    requires |suffix| > 0 && suffix[0] == '.'
    ensures !EndsWith(s, suffix)
  {
    if |suffix| <= |s| {
      assert s[|s| - |suffix|..][0] == s[|s| - |suffix|];
    }
  }

  /** gc_content: a sequence given as text, or a path into the file system
      `files`; a path that is not there gives 0. */
  method GcContent(arg: string, files: map<string, seq<string>>) returns (r: real)
    ensures !IsFileName(arg) ==> r == GcPercent(arg)
    ensures IsFileName(arg) && arg in files ==> r == GcPercent(Sequence(files[arg]))
    ensures IsFileName(arg) && arg !in files ==> r == 0.0
    ensures 0.0 <= r <= 100.0
  {
    if !IsFileName(arg) {
      r := GcPercent(arg);
    } else if arg in files {
      r := GcOfLines(files[arg]);
    } else {
      r := 0.0;
    }
  }

  /** Python's s[a:b] for non-negative a and b. */
  function Slice(s: string, a: nat, b: nat): (r: string)
  {
    var hi := Min(b, |s|);
    if a < hi then s[a..hi] else ""
  }

  /** The 1-based inclusive range [start, end] of s, clipped to s: the
      characters from 0-based index start - 1 (at least 0) up to but not
      including index end (at most |s|). */
  function RangeOf(s: string, start: int, end: int): (r: string)
  {
    Slice(s, Max(0, start - 1), Max(0, end))
  }

  /** The range holds at most end - start + 1 characters. */
  lemma RangeOfLength(s: string, start: int, end: int)
    ensures |RangeOf(s, start, end)| <= Max(0, end - start + 1)
  {
  }

  lemma SliceOfAppend(x: string, y: string, lo: nat, hi: nat)
    requires lo <= hi <= |x| + |y|
    ensures hi <= |x| ==> (x + y)[lo..hi] == x[lo..hi]
    ensures |x| <= lo ==> (x + y)[lo..hi] == y[lo - |x|..hi - |x|]
    ensures lo <= |x| <= hi ==> (x + y)[lo..hi] == x[lo..] + y[..hi - |x|]
  {
  }

  /** What the extraction loop takes from a line that starts at position
      `position` of the sequence. */
  function LinePart(line: string, position: nat, start: int, end: int): string {
    var fs := Max(0, start - 1 - position);
    var fe := Max(0, end - position);
    if fs < |line| && fe > 0 then Slice(line, fs, fe) else ""
  }

  /** Appending a line to the sequence extends the range by exactly what
      the extraction loop takes from that line. */
  lemma RangeOfAppend(x: string, line: string, start: int, end: int)
    ensures RangeOf(x + line, start, end) == RangeOf(x, start, end) + LinePart(line, |x|, start, end)
  {
    var lo, e := Max(0, start - 1), Max(0, end);
    if e <= |x| {
      RangeOfBefore(x, line, start, end);
    } else if lo >= |x| {
      RangeOfAfter(x, line, start, end);
    } else {
      RangeOfAcross(x, line, start, end);
    }
  }

  lemma RangeOfBefore(x: string, line: string, start: int, end: int)
    requires Max(0, end) <= |x|
    ensures RangeOf(x + line, start, end) == RangeOf(x, start, end) && LinePart(line, |x|, start, end) == ""
  {
    var lo, hi := Max(0, start - 1), Max(0, end);
    if lo < hi {
      SliceOfAppend(x, line, lo, hi);
    }
  }

  lemma RangeOfAfter(x: string, line: string, start: int, end: int)
    requires Max(0, end) > |x| && Max(0, start - 1) >= |x|
    ensures RangeOf(x + line, start, end) == LinePart(line, |x|, start, end) && RangeOf(x, start, end) == ""
  {
    var lo, e := Max(0, start - 1), Max(0, end);
    assert Max(0, start - 1 - |x|) == lo - |x| && Max(0, end - |x|) == e - |x|;
    SliceAfter(x, line, lo, e);
  }

  /** A slice that starts past the end of x is a slice of what follows x. */
  lemma SliceAfter(x: string, y: string, lo: nat, e: nat)
    requires |x| <= lo && |x| < e
    ensures Slice(x + y, lo, e) == Slice(y, lo - |x|, e - |x|) && Slice(x, lo, e) == ""
  {
    var hi := Min(e, |x| + |y|);
    if lo < hi {
      SliceOfAppend(x, y, lo, hi);
    }
  }

  lemma RangeOfAcross(x: string, line: string, start: int, end: int)
    requires Max(0, start - 1) < |x| < Max(0, end)
    ensures RangeOf(x + line, start, end) == RangeOf(x, start, end) + LinePart(line, |x|, start, end)
  {
    var lo, e := Max(0, start - 1), Max(0, end);
    var hi := Min(e, |x| + |line|);
    assert Max(0, start - 1 - |x|) == 0 && Max(0, end - |x|) == e - |x|;
    SliceOfAppend(x, line, lo, hi);
    assert RangeOf(x, start, end) == x[lo..];
    if |line| > 0 {
      assert LinePart(line, |x|, start, end) == line[..hi - |x|];
    } else {
      assert x + line == x;
    }
  }

  /** Once the sequence reaches `end`, later text does not change the range. */
  lemma RangeOfPrefix(x: string, y: string, start: int, end: int)
    requires end <= |x|
    ensures RangeOf(x + y, start, end) == RangeOf(x, start, end)
  {
    var lo, e := Max(0, start - 1), Max(0, end);
    if lo < e {
      assert (x + y)[lo..e] == x[lo..e];
    }
  }

  /** extract_range_fasta: walks the lines keeping the position reached in
      the sequence, takes from each line the part inside [start, end], and
      stops once the position reaches `end`. */
  method ExtractRange(lines: seq<string>, start: int, end: int) returns (fragment: string)
    ensures fragment == RangeOf(Sequence(lines), start, end)
  {
    fragment := "";
    var position := 0;
    var i := 0;
    ghost var seen := "";
    assert lines[..|lines|] == lines;
    while i < |lines|
      invariant 0 <= i <= |lines|
      invariant seen == Sequence(lines[..i])
      invariant position == |seen|
      invariant fragment == RangeOf(seen, start, end)
    {
      var line := lines[i];
      if IsHeader(line) {
        HeaderStep(lines, i);
        i := i + 1;
        continue;
      }
      LineStep(lines, i);
      line := Strip(line);
      var lineLength := |line|;
      var fragmentStart := Max(0, start - 1 - position);
      var fragmentEnd := Max(0, end - position);
      RangeOfLine(seen, line, start, end, fragmentStart, fragmentEnd);
      if fragmentStart < lineLength && fragmentEnd > 0 {
        fragment := fragment + Slice(line, fragmentStart, fragmentEnd);
      }
      seen := seen + line;
      position := position + lineLength;
      i := i + 1;
      if position >= end {
        ExtractStop(lines, i, seen, start, end);
        break;
      }
    }
  }

  /** A header line adds nothing to the sequence read so far. */
  lemma HeaderStep(lines: seq<string>, i: nat)
    requires i < |lines| && IsHeader(lines[i])
    ensures Sequence(lines[..i + 1]) == Sequence(lines[..i])
  {
    SequenceStep(lines, i);
    assert Sequence(lines[..i]) + "" == Sequence(lines[..i]);
  }

  /** Any other line adds its stripped text to the sequence read so far. */
  lemma LineStep(lines: seq<string>, i: nat)
    requires i < |lines| && !IsHeader(lines[i])
    ensures Sequence(lines[..i + 1]) == Sequence(lines[..i]) + Strip(lines[i])
  {
    SequenceStep(lines, i);
  }

  /** Appending a line adds to the range exactly the part of the line the
      extraction loop slices out, or nothing when the guard fails. */
  lemma RangeOfLine(x: string, line: string, start: int, end: int, fs: int, fe: int)
    requires fs == Max(0, start - 1 - |x|) && fe == Max(0, end - |x|)
    ensures RangeOf(x + line, start, end)
            == if fs < |line| && fe > 0 then RangeOf(x, start, end) + Slice(line, fs, fe) else RangeOf(x, start, end)
  {
    RangeOfAppend(x, line, start, end);
    assert RangeOf(x, start, end) + "" == RangeOf(x, start, end);
  }

  /** The early break of the extraction loop loses nothing. */
  lemma ExtractStop(lines: seq<string>, i: nat, seen: string, start: int, end: int)
    requires i <= |lines| && seen == Sequence(lines[..i]) && end <= |seen|
    ensures RangeOf(Sequence(lines), start, end) == RangeOf(seen, start, end)
  {
    SequenceAppend(lines[..i], lines[i..]);
    assert lines[..i] + lines[i..] == lines;
    RangeOfPrefix(Sequence(lines[..i]), Sequence(lines[i..]), start, end);
  }

  /** Lines after the requested range never affect the extraction. */
  lemma ExtractIgnoresLaterLines(a: seq<string>, b: seq<string>, start: int, end: int)
    requires end <= |Sequence(a)|
    ensures RangeOf(Sequence(a + b), start, end) == RangeOf(Sequence(a), start, end)
  {
    SequenceAppend(a, b);
    RangeOfPrefix(Sequence(a), Sequence(b), start, end);
  }
}
