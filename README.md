# sgRNA candidate design, modelled in Dafny

This project models the core of a CRISPR guide-RNA (sgRNA) design pipeline:

- It takes a genome held as FASTA lines and an aligned target range `[qstart, qend]`.
- It widens the range by 20 bases on each side and extracts that region.
- It takes the region's reverse complement.
- It scans both strands for `NGG` PAM sites.
- Each site at offset at least `w` gives a candidate: the `w` bases just before that site. The candidate is scored by an efficiency predictor. It becomes a row when its GC content lies in [40, 80].

Modules, following the program's structure:

- `Outcome` holds the result type and the two exceptions the modelled code raises:
  - `UnknownBase(c)` is the `KeyError` that a dictionary lookup raises on a character outside A/C/G/T.
  - `WrongLength(n)` is the `ValueError` that a scorer raises on a guide whose length is not 20.
- `Dna` models `complemento_inverso` and `one_hot_encode`.
- `Fasta` models `gc_content`, with its string branch and its file branch, and `extract_range_fasta`.
  - A file is the sequence of its lines as read.
  - The file system is a map from path to lines.
  - The streaming loops are methods proved equal to specification functions on the joined sequence.
- `Pam` models `find_pam_sites`.
  - The regular expression is made of `N` (the class `[ATCG]`) and literal characters.
  - `re.finditer` is modelled as a leftmost, non-overlapping scan, specified by `IsScan`.
  - The scan is proved to satisfy `IsScan`, and `IsScan` is proved to determine the result.
- `Efficiency` models the scorers.
  - The rule-based scorer `predecir_eficiencia_guia` is computed exactly, in integer tenths.
  - The model-backed scorers (`predecir_eficiencia`, `_nn`, `_xgb`, `_combined`) have their predictor passed in as a function.
- `Design` models the candidate loop shared by `design_sgRNAs_nn`, `_xgb` and `_rf`.
  - The scorer is a parameter.
  - `(qstart, qend)`, which the code reads from the first BLAST hit, are inputs.

Behaviour of the code worth knowing:

- `NGG` in `AAAGGTAGGCC` is found at offsets 2 and 6 (`Pam.ExampleTwoSites`).
- Matches never overlap, because the scan resumes after the end of each match (`Pam.ExampleNoOverlap`).
- Every candidate is scored *before* the GC filter runs, so a scorer error ends the design even for a candidate the filter would drop (`Design.SiteStepFacts`, `Design.StrandFails`).
- The flank added around the hit is always 20, whatever `window_size` is (`Design.FLANK`).
- Every scorer rejects guides whose length is not 20. So, over a region made only of A/C/G/T, any other `window_size` fails with that `ValueError` as soon as either strand has a site at offset at least `window_size` (`Design.DesignNeedsGuideLength`). A region holding any other character fails earlier, with the `KeyError` of the reverse complement (`Design.DesignFails`).
- Reverse-strand rows give their position in the coordinates of the reverse complement, not the forward strand.

Scores in tenths: the heuristic's constants are all multiples of 0.1. So the heuristic is an integer number of tenths:

- it starts at 10;
- the GC rule subtracts 3;
- a final G adds 5;
- the positions add +2, +2 and ±3;
- the palindrome penalty is `min(3*count, 8)`;
- the result is clamped at 0.

GC content is an exact real.

## Model

| member | source | states |
|---|---|---|
| Dna.IsBase | sgRNA_package/sgRNA/paq1_percent.py:32 | the characters the complement table and the one-hot table have keys for: A, C, G and T; any other character raises KeyError |
| Dna.IsDna | sgRNA_package/sgRNA/paq1_percent.py:30-38 | every character of the string is such a base, so neither table lookup raises |
| Dna.Complement | sgRNA_package/sgRNA/paq1_percent.py:32 | the complement table maps each base to a different base |
| Dna.ComplementInvolutive | sgRNA_package/sgRNA/paq1_percent.py:32 | complementing a base twice gives it back |
| Dna.ReverseComplement | sgRNA_package/sgRNA/paq1_percent.py:30-33 | succeeds exactly when every character is A/C/G/T; the result has the same length, and its character i is the complement of input character n-1-i |
| Dna.ReverseComplementError | sgRNA_package/sgRNA/paq1_percent.py:33 | the KeyError names the last non-base character, since the input is walked from its end |
| Dna.ReverseComplementInvolutive | sgRNA_package/sgRNA/paq1_percent.py:30-33 | the reverse complement of the reverse complement of a DNA string is that string |
| Dna.ReverseComplementWindow | sgRNA_package/sgRNA/paq1_percent.py:30-33 | the reverse complement of window [lo, hi) is window [n-hi, n-lo) of the reverse complement |
| Dna.BaseIndex | sgRNA_package/sgRNA/paq1_percent.py:37 | each base selects one of the four columns |
| Dna.Block | sgRNA_package/sgRNA/paq1_percent.py:37 | a base's block has four entries, with a single 1 in that base's column |
| Dna.OneHot | sgRNA_package/sgRNA/paq1_percent.py:36-38 | succeeds exactly when every character is a base; the vector has length 4·n |
| Dna.OneHotAt | sgRNA_package/sgRNA/paq1_percent.py:36-38 | entry 4i+j is 1 when j is the column of character i, and 0 otherwise |
| Dna.OneHotError | sgRNA_package/sgRNA/paq1_percent.py:38 | the KeyError names the first non-base character |
| Dna.Decode | sgRNA_package/sgRNA/paq1_percent.py:37 | reading the blocks back gives one base per four entries |
| Dna.DecodeOneHot | sgRNA_package/sgRNA/paq1_percent.py:36-38 | the encoding loses nothing: decoding it returns the sequence |
| Fasta.Upper | sgRNA_package/sgRNA/paq1_soporte.py:69 | upper-casing keeps the length |
| Fasta.IsSpace | sgRNA_package/sgRNA/paq1_soporte.py:79 | the characters Python's `str.strip()` removes |
| Fasta.StripLeft | sgRNA_package/sgRNA/paq1_soporte.py:79 | the text with its leading whitespace removed |
| Fasta.StripRight | sgRNA_package/sgRNA/paq1_soporte.py:79 | the text with its trailing whitespace removed |
| Fasta.Strip | sgRNA_package/sgRNA/paq1_soporte.py:113 | `line.strip()`: both ends stripped |
| Fasta.UpperChar | sgRNA_package/sgRNA/paq1_soporte.py:69 | `str.upper()` on one character: an ASCII lower-case letter becomes upper-case, anything else is kept |
| Fasta.LowerChar | sgRNA_package/sgRNA/paq1_soporte.py:69 | the ASCII lower-casing used to state that case does not matter (`Fasta.GcPercentCaseInsensitive`) |
| Fasta.Lower | sgRNA_package/sgRNA/paq1_soporte.py:69 | lower-casing keeps the length |
| Fasta.CountGc | sgRNA_package/sgRNA/paq1_soporte.py:81 | `count('G') + count('C')`, case-sensitive; its sums and bound are `Fasta.CountGcAppend` and `Fasta.CountGcBound` |
| Fasta.CountGcAnyCase | sgRNA_package/sgRNA/paq1_soporte.py:69-71 | the number of G, C, g and c characters, which `Fasta.GcPercentCounts` proves GC content is a percentage of |
| Fasta.CountGcAppend | sgRNA_package/sgRNA/paq1_soporte.py:81 | G/C counts add up over concatenated text |
| Fasta.CountGcBound | sgRNA_package/sgRNA/paq1_soporte.py:71 | there are never more G/C characters than characters |
| Fasta.Percent | sgRNA_package/sgRNA/paq1_soporte.py:85-88 | the percentage lies in [0, 100], and an empty total gives 0 |
| Fasta.PercentBound | sgRNA_package/sgRNA/paq1_soporte.py:88 | 100·count/total lies in [0, 100] when count ≤ total |
| Fasta.GcPercent | sgRNA_package/sgRNA/paq1_soporte.py:67-71 | the GC content of a text lies in [0, 100], and the empty text gives 0 |
| Fasta.UpperAppend | sgRNA_package/sgRNA/paq1_soporte.py:79 | upper-casing line by line equals upper-casing the joined text |
| Fasta.CountGcUpper | sgRNA_package/sgRNA/paq1_soporte.py:69-71 | after upper-casing, the case-sensitive count counts g and c too |
| Fasta.GcPercentCounts | sgRNA_package/sgRNA/paq1_soporte.py:67-88 | GC content is 100·(number of G, C, g, c)/length |
| Fasta.GcPercentCaseInsensitive | sgRNA_package/sgRNA/paq1_soporte.py:69 | lower- or upper-casing the input leaves its GC content unchanged |
| Fasta.GcPercentTwenty | sgRNA_package/sgRNA/paq1_soporte.py:88 | for a 20-base text the GC content is exactly 5 times its G/C count |
| Fasta.IsHeader | sgRNA_package/sgRNA/paq1_soporte.py:110 | `line.startswith('>')` |
| Fasta.LineBases | sgRNA_package/sgRNA/paq1_soporte.py:77-79 | a header adds nothing; any other line adds its stripped text |
| Fasta.Sequence | sgRNA_package/sgRNA/paq1_soporte.py:76-81 | the non-header lines, stripped and joined; its step and sums are `Fasta.SequenceStep` and `Fasta.SequenceAppend` |
| Fasta.SequenceAppend | sgRNA_package/sgRNA/paq1_soporte.py:76-81 | the sequence of two runs of lines is the two sequences joined |
| Fasta.HeaderSkipped | sgRNA_package/sgRNA/paq1_soporte.py:77-78 | a header line in the middle is skipped, and the lines on either side are joined |
| Fasta.SequenceStep | sgRNA_package/sgRNA/paq1_soporte.py:76-81 | one more line adds its stripped text, or nothing for a header |
| Fasta.GcOfLines | sgRNA_package/sgRNA/paq1_soporte.py:74-88 | the file loop, summing lengths and G/C counts over the stripped, upper-cased non-header lines, returns the GC content of the file's joined sequence |
| Fasta.GcPercentOf | sgRNA_package/sgRNA/paq1_soporte.py:88 | the loop's totals give exactly the GC content of the joined sequence |
| Fasta.EndsWith | sgRNA_package/sgRNA/paq1_soporte.py:67 | `str.endswith` for one suffix |
| Fasta.IsFileName | sgRNA_package/sgRNA/paq1_soporte.py:67 | the argument ends in .fasta, .fa or .txt; `Fasta.DnaIsNoFileName` proves no string of bases does |
| Fasta.DnaIsNoFileName | sgRNA_package/sgRNA/paq1_soporte.py:67 | a string of bases never ends in .fasta, .fa or .txt, so it is read as text |
| Fasta.NoDotSuffix | sgRNA_package/sgRNA/paq1_soporte.py:67 | a string of bases does not end in a suffix starting with a dot |
| Fasta.GcContent | sgRNA_package/sgRNA/paq1_soporte.py:53-89 | text gives its GC content; an existing path gives the GC content of its file; a missing path gives 0; the result lies in [0, 100] |
| Fasta.Slice | sgRNA_package/sgRNA/paq1_soporte.py:122 | Python's `s[a:b]` for non-negative bounds, clipped to the text; its joins are `Fasta.SliceOfAppend` and `Fasta.SliceAfter` |
| Fasta.RangeOf | sgRNA_package/sgRNA/paq1_soporte.py:117-122 | the 1-based inclusive range [start, end] of the joined sequence, clipped; its length bound is `Fasta.RangeOfLength` |
| Fasta.LinePart | sgRNA_package/sgRNA/paq1_soporte.py:117-122 | what the loop takes from a line at a given position; `Fasta.RangeOfAppend` proves it is exactly the range's growth |
| Fasta.RangeOfLength | sgRNA_package/sgRNA/paq1_soporte.py:93-131 | the extracted range holds at most end-start+1 characters |
| Fasta.SliceOfAppend | sgRNA_package/sgRNA/paq1_soporte.py:122 | a slice of joined text, when it lies left of the join, right of it or across it |
| Fasta.RangeOfAppend | sgRNA_package/sgRNA/paq1_soporte.py:116-122 | one more line extends the range by exactly the part of that line the loop slices out |
| Fasta.RangeOfBefore | sgRNA_package/sgRNA/paq1_soporte.py:116-122 | a line starting at or after `end` adds nothing |
| Fasta.RangeOfAfter | sgRNA_package/sgRNA/paq1_soporte.py:116-122 | when the range starts at or after the line, the range of the whole is the line's part |
| Fasta.SliceAfter | sgRNA_package/sgRNA/paq1_soporte.py:122 | a slice starting past the first text is a slice of the second |
| Fasta.RangeOfAcross | sgRNA_package/sgRNA/paq1_soporte.py:116-122 | a range that begins before the line and ends after its start takes a prefix of the line |
| Fasta.RangeOfPrefix | sgRNA_package/sgRNA/paq1_soporte.py:127-129 | once the text reaches `end`, more text does not change the range |
| Fasta.ExtractRange | sgRNA_package/sgRNA/paq1_soporte.py:93-131 | the streaming loop, with its position counter and early break, returns the 1-based inclusive range [start, end] of the joined non-header lines, clipped to the sequence |
| Fasta.HeaderStep | sgRNA_package/sgRNA/paq1_soporte.py:110-111 | a header line adds nothing to the sequence read so far |
| Fasta.LineStep | sgRNA_package/sgRNA/paq1_soporte.py:113 | any other line adds its stripped text |
| Fasta.RangeOfLine | sgRNA_package/sgRNA/paq1_soporte.py:117-122 | the loop's fragment_start/fragment_end guard and slice add exactly the new part of the range |
| Fasta.ExtractStop | sgRNA_package/sgRNA/paq1_soporte.py:127-129 | the early break loses nothing |
| Fasta.ExtractIgnoresLaterLines | sgRNA_package/sgRNA/paq1_soporte.py:125-129 | lines after the end of the range never affect the result |
| Pam.CharMatches | sgRNA_package/sgRNA/paq1_soporte.py:136 | `N` stands for the class [ATCG]; any other pattern character matches only itself |
| Pam.MatchesAt | sgRNA_package/sgRNA/paq1_soporte.py:136-137 | the pattern fits at position i and each of its characters matches the sequence there |
| Pam.Advance | sgRNA_package/sgRNA/paq1_soporte.py:137 | the scan resumes after the end of a match, or one position on for the empty pattern |
| Pam.IsSite | sgRNA_package/sgRNA/paq1_soporte.py:137 | a site is a match carrying its own text, as `(m.start(), m.group())` |
| Pam.NoMatchIn | sgRNA_package/sgRNA/paq1_soporte.py:137 | no match starts in [lo, hi) |
| Pam.Sound | sgRNA_package/sgRNA/paq1_soporte.py:137 | every reported site is a match from the scan's start on |
| Pam.Disjoint | sgRNA_package/sgRNA/paq1_soporte.py:137 | sites come in order and do not overlap |
| Pam.Leftmost | sgRNA_package/sgRNA/paq1_soporte.py:137 | nothing matches before the first site, between sites or after the last |
| Pam.IsScan | sgRNA_package/sgRNA/paq1_soporte.py:137 | the specification of `re.finditer`: sound, disjoint and leftmost |
| Pam.ScanFrom | sgRNA_package/sgRNA/paq1_soporte.py:137 | the scan from position i; `Pam.ScanFromIsScan` proves it meets `IsScan`, and `Pam.ScanDetermined` that nothing else does |
| Pam.ScanFromIsScan | sgRNA_package/sgRNA/paq1_soporte.py:137 | the scan satisfies its specification: sound, ordered without overlap, and leftmost |
| Pam.ScanCons | sgRNA_package/sgRNA/paq1_soporte.py:137 | a match followed by the scan from its end is a scan |
| Pam.ConsSound | sgRNA_package/sgRNA/paq1_soporte.py:137 | adding the match in front keeps every site a match carrying its text |
| Pam.ConsDisjoint | sgRNA_package/sgRNA/paq1_soporte.py:137 | adding the match in front keeps the sites ordered and non-overlapping |
| Pam.ConsLeftmost | sgRNA_package/sgRNA/paq1_soporte.py:137 | adding the match in front keeps the gaps free of matches |
| Pam.ScanSkip | sgRNA_package/sgRNA/paq1_soporte.py:137 | a position with no match is passed over |
| Pam.FindPamSites | sgRNA_package/sgRNA/paq1_soporte.py:134-138 | every site is a match (N for any base, other characters literal) carrying its own text; the offsets increase by at least the pattern length; nothing matches before the first site, between sites or after the last |
| Pam.MatchCovered | sgRNA_package/sgRNA/paq1_soporte.py:137 | every matching position is reported or lies inside a reported site |
| Pam.ScanTail | sgRNA_package/sgRNA/paq1_soporte.py:137 | after its first site, a scan is the scan from that site's end |
| Pam.ScanUnique | sgRNA_package/sgRNA/paq1_soporte.py:137 | two lists that both meet the scan specification are equal |
| Pam.ScanDetermined | sgRNA_package/sgRNA/paq1_soporte.py:137 | a list meeting the scan specification is the scan |
| Pam.IsChain | sgRNA_package/sgRNA/paq1_soporte.py:137 | the scan told one site at a time: the first match from i, then a chain from its end |
| Pam.ScanIsChain | sgRNA_package/sgRNA/paq1_soporte.py:137 | a scan is a chain of first matches, one after the other |
| Pam.ScanHead | sgRNA_package/sgRNA/paq1_soporte.py:137 | a scan's first site is the first match from i, and an empty scan means no match at all |
| Pam.ChainCons | sgRNA_package/sgRNA/paq1_soporte.py:137 | a first match followed by a chain from its end is a chain |
| Pam.ChainHead | sgRNA_package/sgRNA/paq1_soporte.py:137 | a chain's first site is the first match from i, ends inside the text, and is followed by a chain from its end |
| Pam.ChainDetermined | sgRNA_package/sgRNA/paq1_soporte.py:137 | such a chain is the scan |
| Pam.ConsIsScanFrom | sgRNA_package/sgRNA/paq1_soporte.py:137 | the first match from i, followed by the scan from its end, is the scan from i |
| Pam.ScanAtMatch | sgRNA_package/sgRNA/paq1_soporte.py:137 | at a match, the scan reports it and resumes after its end |
| Pam.SkipTo | sgRNA_package/sgRNA/paq1_soporte.py:137 | with no match in [i, p), the scan from i is the scan from p |
| Pam.PamSitesUnique | sgRNA_package/sgRNA/paq1_soporte.py:134-138 | the specification of find_pam_sites determines its result |
| Pam.ExampleTwoSites | sgRNA_package/sgRNA/paq1_soporte.py:134-138 | NGG in AAAGGTAGGCC gives AGG at offsets 2 and 6 |
| Pam.ExampleScan | sgRNA_package/sgRNA/paq1_soporte.py:137 | the same example, traced one position at a time |
| Pam.ExampleFirstSite | sgRNA_package/sgRNA/paq1_soporte.py:137 | positions 0 and 1 of the example do not match; position 2 gives AGG, and the scan resumes at 5 |
| Pam.ExampleSecondSite | sgRNA_package/sgRNA/paq1_soporte.py:137 | from position 5 on, the example's only site is AGG at 6 |
| Pam.ExampleNoOverlap | sgRNA_package/sgRNA/paq1_soporte.py:137 | in AGGG the overlapping match GGG at 1 is not reported |
| Efficiency.GcPenalty | sgRNA_package/sgRNA/paq1_percent.py:53-62 | 3 tenths are subtracted exactly when the GC fraction count/20 is below 0.40 or above 0.80 |
| Efficiency.PositionalWeight | sgRNA_package/sgRNA/paq1_percent.py:69-73 | the weight table: +2 for C at 18, +2 for G at 19, +3 for G and -3 for T at 20, in tenths |
| Efficiency.WeightSum | sgRNA_package/sgRNA/paq1_percent.py:74-77 | the positional loop's total over positions 1..n |
| Efficiency.TailBonus | sgRNA_package/sgRNA/paq1_percent.py:69-77 | the weights of the last three positions, which `Efficiency.OnlyTailWeighs` proves equal to the whole loop's |
| Efficiency.LeadingWeightsZero | sgRNA_package/sgRNA/paq1_percent.py:69-77 | positions 1 to 17 contribute nothing |
| Efficiency.OnlyTailWeighs | sgRNA_package/sgRNA/paq1_percent.py:69-77 | the positional loop adds exactly +2 for C at 18, +2 for G at 19, +3 for G or -3 for T at 20 |
| Efficiency.OccursAt | sgRNA_package/sgRNA/paq1_percent.py:84 | a text occurs at index k of another |
| Efficiency.IsSubstring | sgRNA_package/sgRNA/paq1_percent.py:84 | Python's `comp in secuencia_20nt` |
| Efficiency.PalindromeCount | sgRNA_package/sgRNA/paq1_percent.py:80-85 | the counter after the first n windows, or the KeyError of a window holding a non-base; its properties are `Efficiency.PalindromeCountBound`, `PalindromeCountOk`, `PalindromeCountMonotone` and `PalindromeErrorSticks` |
| Efficiency.Heuristic | sgRNA_package/sgRNA/paq1_percent.py:47-95 | predecir_eficiencia_guia in tenths; `Efficiency.ScoreGuide` proves the step-by-step code computes it, and `HeuristicFails`, `HeuristicBounds` and `LastBaseGBonus` state what it is |
| Efficiency.ScoreGuide | sgRNA_package/sgRNA/paq1_percent.py:47-95 | the step-by-step scorer, with its positional and palindrome loops, computes the heuristic score, including its errors |
| Efficiency.PalindromeErrorSticks | sgRNA_package/sgRNA/paq1_percent.py:81-85 | a KeyError in one window ends the count with that error |
| Efficiency.PalindromeCountBound | sgRNA_package/sgRNA/paq1_percent.py:80-85 | the counter never exceeds the number of windows examined |
| Efficiency.PalindromeCountOk | sgRNA_package/sgRNA/paq1_percent.py:81-85 | the count fails exactly when the windows seen hold a non-base |
| Efficiency.HeuristicFails | sgRNA_package/sgRNA/paq1_percent.py:49-50 | any length other than 20 raises ValueError; a 20-mer scores exactly when it is made of bases |
| Efficiency.HeuristicBounds | sgRNA_package/sgRNA/paq1_percent.py:57-93 | the score lies in [0, 2.2] |
| Efficiency.PenaltyBounds | sgRNA_package/sgRNA/paq1_percent.py:87-90 | the palindrome count lies in [0, 17], and its penalty in [0, 0.8] |
| Efficiency.PalindromeCountMonotone | sgRNA_package/sgRNA/paq1_percent.py:80-85 | the counter only grows as windows are added |
| Efficiency.SelfComplementaryWindowCounts | sgRNA_package/sgRNA/paq1_percent.py:82-85 | a window that is its own reverse complement is counted |
| Efficiency.LastBaseGBonus | sgRNA_package/sgRNA/paq1_percent.py:54-77 | other things equal, a final G scores exactly 0.8 above another final base (1.1 above T), unless the lower score is clamped at 0; it always scores at least 0.7 above |
| Efficiency.ModelScore | sgRNA_package/sgRNA/paq1_percent.py:99-141 | ValueError for any length but 20; otherwise it succeeds exactly on bases; the score is 100 times the predictor on the 80-entry one-hot vector |
| Efficiency.CombinedScore | sgRNA_package/sgRNA/paq1_percent.py:144-150 | fails exactly when the boosted-tree score fails, with its error; otherwise it is the mean of the two scores and lies between them |
| Design.WithinRegion | sgRNA_package/sgRNA/paq1_soporte.py:156-159 | every site lies inside the scanned sequence |
| Design.GcAccepted | sgRNA_package/sgRNA/paq1_soporte.py:170 | the filter `40 <= gc <= 80` |
| Design.SiteStep | sgRNA_package/sgRNA/paq1_soporte.py:162-179 | one iteration of the loop over sites; `Design.SiteStepFacts` states what it does |
| Design.RowsUpTo | sgRNA_package/sgRNA/paq1_soporte.py:162-179 | the loop after its first n sites, the first error winning; `Design.ScanStrand` proves the loop computes it |
| Design.StrandOf | sgRNA_package/sgRNA/paq1_soporte.py:156-179 | one strand's rows over its NGG sites; `Design.StrandOfRows`, `StrandOfOrder`, `StrandOfComplete` and `StrandOfFails` state them |
| Design.DesignFromRegion | sgRNA_package/sgRNA/paq1_soporte.py:153-200 | the table for an extracted region: forward rows then reverse rows, or the first error; `Design.DesignSplits`, `DesignRows`, `DesignOrder`, `DesignFails` and `DesignComplete*` state it |
| Design.IsRow | sgRNA_package/sgRNA/paq1_soporte.py:170-178 | what a row is: a w-base window right before a PAM match, its PAM text, its accepted GC content, its strand and its score |
| Design.ScoreFails | sgRNA_package/sgRNA/paq1_soporte.py:163-166 | the scorer fails on the candidate of a site at offset at least w |
| Design.EndsAtSite | sgRNA_package/sgRNA/paq1_soporte.py:175 | a row's window ends right before one of the first n sites |
| Design.ScanStrand | sgRNA_package/sgRNA/paq1_soporte.py:162-179 | one strand's loop over its sites returns the rows given by the site-by-site specification |
| Design.RowsStep | sgRNA_package/sgRNA/paq1_soporte.py:162-179 | one more site applies one step to the rows so far |
| Design.RowsErrorSticks | sgRNA_package/sgRNA/paq1_soporte.py:166 | the first scorer error ends the loop with that error |
| Design.SiteStepFacts | sgRNA_package/sgRNA/paq1_soporte.py:163-179 | a site fails exactly when its candidate's score fails; otherwise it keeps the rows and adds one exactly when the GC content is accepted: that row holds the candidate, the PAM text, its GC content, offset-w, the strand and the score |
| Design.RowsAreCandidates | sgRNA_package/sgRNA/paq1_soporte.py:162-179 | every row is a w-base window, right before a PAM match, with GC content in [40, 80], its strand and the scorer's value |
| Design.StepRowIsRow | sgRNA_package/sgRNA/paq1_soporte.py:170-179 | one step keeps the rows, and the row it adds is a candidate |
| Design.ExtendRows | sgRNA_package/sgRNA/paq1_soporte.py:179 | candidates plus one more candidate are all candidates |
| Design.RowsFromSites | sgRNA_package/sgRNA/paq1_soporte.py:162-175 | every row's window ends at one of the scanned sites |
| Design.ExtendFromSites | sgRNA_package/sgRNA/paq1_soporte.py:175 | rows from earlier sites, plus one row from the next site, are rows from those sites |
| Design.StepPositions | sgRNA_package/sgRNA/paq1_soporte.py:175 | the row a site adds is at its offset minus w |
| Design.NewRowIsRow | sgRNA_package/sgRNA/paq1_soporte.py:171-178 | the row built from a site is a candidate |
| Design.RowsComplete | sgRNA_package/sgRNA/paq1_soporte.py:162-179 | every site at offset at least w whose window has accepted GC content gives a row |
| Design.StrandFails | sgRNA_package/sgRNA/paq1_soporte.py:163-166 | a strand fails exactly when the scorer fails on the window of one of its sites at offset at least w |
| Design.StrandFirstError | sgRNA_package/sgRNA/paq1_soporte.py:163-166 | a failed strand has a first failing site k: the error is the scorer's error on its window, and no earlier site's window fails |
| Design.RowsOrdered | sgRNA_package/sgRNA/paq1_soporte.py:162-179 | rows come in site order, with strictly increasing positions |
| Design.ExtendOrdered | sgRNA_package/sgRNA/paq1_soporte.py:179 | appending a row past the last keeps positions increasing |
| Design.PamSitesOrdered | sgRNA_package/sgRNA/paq1_soporte.py:156-159 | the sites lie inside the scanned region, carry their text and increase |
| Design.StrandOfRows | sgRNA_package/sgRNA/paq1_soporte.py:162-179 | every row of a strand is one of its candidates and ends at one of its NGG sites |
| Design.StrandOfOrder | sgRNA_package/sgRNA/paq1_soporte.py:162-179 | a strand's rows carry that strand, in increasing position |
| Design.StrandOfComplete | sgRNA_package/sgRNA/paq1_soporte.py:162-179 | every site with accepted GC content gives a row of that strand |
| Design.SomeScoreFails | sgRNA_package/sgRNA/paq1_soporte.py:163-166 | the scorer fails on the window of one of the NGG sites of a sequence |
| Design.StrandOfFails | sgRNA_package/sgRNA/paq1_soporte.py:162-179 | a strand fails exactly when its scorer fails on one of its windows |
| Design.DesignSplits | sgRNA_package/sgRNA/paq1_soporte.py:153-200 | a successful design read a DNA region, and is the forward rows followed by the reverse rows |
| Design.DesignRows | sgRNA_package/sgRNA/paq1_soporte.py:162-199 | every forward row is a candidate of the region; every reverse row is a candidate of its reverse complement |
| Design.DesignOrder | sgRNA_package/sgRNA/paq1_soporte.py:162-200 | all forward rows precede all reverse rows, and positions increase within a strand |
| Design.ConcatOrder | sgRNA_package/sgRNA/paq1_soporte.py:199 | joining the two tables keeps both orders |
| Design.DesignFails | sgRNA_package/sgRNA/paq1_soporte.py:153-200 | the design fails exactly when the region holds a non-base, or the scorer fails on a window of either strand |
| Design.DnaDesignFails | sgRNA_package/sgRNA/paq1_soporte.py:154-200 | over a DNA region, the design fails exactly when one of its strands does, and each strand fails exactly when a window of its own fails |
| Design.DesignCompleteForward | sgRNA_package/sgRNA/paq1_soporte.py:162-179 | every forward site with accepted GC content gives a forward row |
| Design.DesignCompleteReverse | sgRNA_package/sgRNA/paq1_soporte.py:182-199 | every reverse-complement site with accepted GC content gives a reverse row |
| Design.ConcatFindsLeft | sgRNA_package/sgRNA/paq1_soporte.py:179 | a forward row is kept in the joined table |
| Design.ConcatFindsRight | sgRNA_package/sgRNA/paq1_soporte.py:199 | a reverse row is kept in the joined table |
| Design.WindowIsDna | sgRNA_package/sgRNA/paq1_soporte.py:164 | the windows of a DNA region are DNA |
| Design.CandidateIsText | sgRNA_package/sgRNA/paq1_soporte.py:165 | gc_content reads each candidate as text, not as a file name |
| Design.ModelDesignFailsOnlyOnBadBase | sgRNA_package/sgRNA/paq1_soporte.py:153-200 | with 20-base windows and a model-backed scorer, the design fails exactly when the region holds a non-base |
| Design.ChecksLength | sgRNA_package/sgRNA/paq1_percent.py:100-133 | a scorer that raises ValueError on every guide whose length is not 20, as the guards of predecir_eficiencia, _nn and _xgb at lines 100-101, 117-118 and 132-133 do |
| Design.HasCandidate | sgRNA_package/sgRNA/paq1_soporte.py:162-163 | some NGG site of a sequence lies at offset at least w |
| Design.DesignNeedsGuideLength | sgRNA_package/sgRNA/paq1_soporte.py:162-200 | over a region made only of A/C/G/T and with a length-checking scorer, any window size other than 20 fails with that ValueError as soon as either strand has a site at offset at least w |
| Design.NoCandidateNoFailure | sgRNA_package/sgRNA/paq1_soporte.py:163 | a strand with no site at offset at least w never calls the scorer, so it succeeds |
| Design.StrandNeedsGuideLength | sgRNA_package/sgRNA/paq1_soporte.py:162-166 | a strand with a site at offset at least w fails with the length error when w is not 20 |
| Design.LengthErrorWins | sgRNA_package/sgRNA/paq1_soporte.py:166 | the scorer's error on a window whose length is not 20 is the length error |
| Design.ModelChecksLength | sgRNA_package/sgRNA/paq1_percent.py:99-141 | the model-backed scorers check the guide length |
| Design.ModelDesignNeedsGuideLength | sgRNA_package/sgRNA/paq1_soporte.py:162-200 | so, over a region made only of A/C/G/T and with a model-backed scorer, any window size other than 20 fails with ValueError once either strand has a site at offset at least w |
| Design.DesignGuides | sgRNA_package/sgRNA/paq1_soporte.py:143-200 | the pipeline widens [qstart, qend] by 20 on each side, extracts the region, reverse-complements it, and scans both strands; it returns the table described by the lemmas above, or the first error |

## Left out

- `blast_align` and `load_file` are left out: they are a `blastn` subprocess with pandas parsing, and a Biopython reader. `DesignGuides` takes the first hit's `qstart` and `qend` as inputs, so the model does not capture a missing BLAST result (`None`).
- Opening files is left out. `gc_content` reads from a map of paths to lines, where a missing path gives 0. `extract_range_fasta` has its genome's lines passed in, so a missing genome file (`FileNotFoundError`) is not modelled.
- Loading the trained models at import time, and their `predict` calls, are left out. They are foreign code: each predictor is a function from the one-hot vector to a real.
- Fasta.GcPercent: `round(·, 2)` is left out; the result is the exact percentage. For every 20-base candidate the value is exactly 5·count (`Fasta.GcPercentTwenty`), so rounding changes neither it nor the [40, 80] filter.
- Efficiency.ScoreGuide: the score is exact in tenths, not the binary float sum, so float noise such as 1.0 - 0.3 is not modelled.
- Design.DesignGuides: the `round(·, 2)` applied to the efficiency is not modelled. Rows carry the scorer's exact value.
- pandas mechanics are not modelled: the DataFrame, `pd.concat`, and the initial column list that differs from the row keys. The table is a sequence of `Guide` records.
- Fasta.Upper and Fasta.UpperChar upper-case only ASCII letters, and `Fasta.IsSpace` lists Python's whitespace characters. Unicode case mapping beyond ASCII is not modelled.
- Fasta.GcContent: a non-string argument, which would be opened as a path, is not modelled. The argument is always a string.
- Pam.FindPamSites: a pattern containing other regular-expression syntax is not modelled. Every pattern character other than `N` is taken literally, as for the pattern `NGG` the pipeline uses.
- The second, identical definition of `complemento_inverso` (`paq1_percent.py` lines 41-44) is not modelled separately. It shadows the first with the same body, so `Dna.ReverseComplement` models both.
- `design_sgRNAs_xgb` and `design_sgRNAs_rf` (`paq1_soporte.py` lines 204-322) are not modelled separately. They repeat `design_sgRNAs_nn` with another scorer, and `Design.DesignGuides` takes the scorer as a parameter.
- The PDF report, the command-line entry point and packaging are left out, as presentation and I/O.
