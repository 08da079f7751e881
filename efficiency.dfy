/** The efficiency scorers of paq1_percent.py: the self-contained heuristic,
    scored exactly in tenths, and the model-backed scorers around opaque
    predictors. */
module Efficiency {
  import opened Outcome
  import opened Dna
  import opened Fasta

  const GUIDE_LENGTH: nat := 20

  /** The GC rule: -0.3 when the GC fraction count/20 is below 0.40 or
      above 0.80. */
  function GcPenalty(count: nat): (r: int)
    ensures r == if (count as real) / 20.0 < 0.40 || (count as real) / 20.0 > 0.80 then -3 else 0
  {
    if count < 8 || count > 16 then -3 else 0
  }

  /** The positional weight table, by 1-based position in the guide. */
  function PositionalWeight(pos: int, base: char): int {
    if pos == 18 && base == 'C' then 2
    else if pos == 19 && base == 'G' then 2
    else if pos == 20 && base == 'G' then 3
    else if pos == 20 && base == 'T' then -3
    else 0
  }

  /** The weights of positions 1..n. */
  function WeightSum(s: string, n: nat): int
    requires n <= |s|
  {
    if n == 0 then 0 else WeightSum(s, n - 1) + PositionalWeight(n, s[n - 1])
  }

  /** What the last three positions add: C at 18, G at 19, G or T at 20. */
  function TailBonus(s: string): int
    requires |s| == GUIDE_LENGTH
  {
    (if s[17] == 'C' then 2 else 0) + (if s[18] == 'G' then 2 else 0)
    + (if s[19] == 'G' then 3 else if s[19] == 'T' then -3 else 0)
  }

  lemma {:induction false} LeadingWeightsZero(s: string, n: nat)
    requires n <= 17 && n <= |s|
    ensures WeightSum(s, n) == 0
  {
    if n > 0 {
      LeadingWeightsZero(s, n - 1);
    }
  }

  /** No position other than 18, 19 and 20 contributes. */
  lemma OnlyTailWeighs(s: string)
    requires |s| == GUIDE_LENGTH
    ensures WeightSum(s, 20) == TailBonus(s)
  {
    LeadingWeightsZero(s, 17);
    assert WeightSum(s, 18) == PositionalWeight(18, s[17]);
    assert WeightSum(s, 19) == WeightSum(s, 18) + PositionalWeight(19, s[18]);
    assert WeightSum(s, 20) == WeightSum(s, 19) + PositionalWeight(20, s[19]);
  }

  /** `t` occurs in `s` starting at index `k`. */
  predicate OccursAt(t: string, s: string, k: int) {
    0 <= k <= |s| - |t| && s[k..k + |t|] == t
  }

  /** Python's `t in s` on strings. */
  predicate IsSubstring(t: string, s: string) {
    exists k :: 0 <= k <= |s| - |t| && OccursAt(t, s, k)
  }

  /** The palindrome counter after the windows 0..n-1: window i counts when
      the reverse complement of guide[i..i+4] occurs anywhere in the guide;
      a window with a character that is not a base raises KeyError. */
  function PalindromeCount(s: string, n: nat): Result<nat>
    requires |s| == GUIDE_LENGTH && n <= 17
  {
    if n == 0 then Ok(0)
    else
      match PalindromeCount(s, n - 1)
      case Err(e) => Err(e)
      case Ok(c) =>
        match ReverseComplement(s[n - 1..n + 3])
        case Err(e) => Err(e)
        case Ok(comp) => Ok(c + if IsSubstring(comp, s) then 1 else 0)
  }

  /** The score of predecir_eficiencia_guia in tenths, before binary
      floating point: start at 10, the GC rule, +5 for a final G, the
      positional weights, minus min(3 * palindromes, 8), clamped at 0. */
  function Heuristic(s: string): Result<int> {
    if |s| != GUIDE_LENGTH then Err(WrongLength(|s|))
    else
      match PalindromeCount(s, 17)
      case Err(e) => Err(e)
      case Ok(palindromes) =>
        var raw := 10 + GcPenalty(CountGc(s)) + (if s[19] == 'G' then 5 else 0) + TailBonus(s);
        Ok(Max(0, raw - Min(3 * palindromes, 8)))
  }

  /** predecir_eficiencia_guia, in tenths. */
  method ScoreGuide(guide: string) returns (r: Result<int>)
    ensures r == Heuristic(guide)
  {
    if |guide| != GUIDE_LENGTH {
      return Err(WrongLength(|guide|));
    }
    var gc := (CountGc(guide) as real) / 20.0;
    var lastIsG := guide[19] == 'G';
    var score := 10;
    if gc < 0.40 || gc > 0.80 {
      score := score - 3;
    }
    if lastIsG {
      score := score + 5;
    }
    ghost var before := score;
    for pos := 1 to GUIDE_LENGTH + 1
      invariant score == before + WeightSum(guide, pos - 1)
    {
      score := score + PositionalWeight(pos, guide[pos - 1]);
    }
    OnlyTailWeighs(guide);
    var palindromes := 0;
    for i := 0 to 17
      invariant PalindromeCount(guide, i) == Ok(palindromes)
    {
      var comp := ReverseComplement(guide[i..i + 4]);
      if comp.Err? {
        PalindromeErrorSticks(guide, i + 1, 17);
        return Err(comp.error);
      }
      if IsSubstring(comp.value, guide) {
        palindromes := palindromes + 1;
      }
    }
    var penalty := Min(3 * palindromes, 8);
    score := score - penalty;
    r := Ok(Max(0, score));
  }

  /** Once a window fails, the counter keeps that error. */
  lemma {:induction false} PalindromeErrorSticks(s: string, m: nat, n: nat)
    requires |s| == GUIDE_LENGTH && m <= n <= 17 && PalindromeCount(s, m).Err?
    ensures PalindromeCount(s, n) == PalindromeCount(s, m)
    decreases n
  {
    if m < n {
      PalindromeErrorSticks(s, m, n - 1);
    }
  }

  /** The palindrome counter never exceeds the number of windows seen. */
  lemma {:induction false} PalindromeCountBound(s: string, n: nat)
    requires |s| == GUIDE_LENGTH && n <= 17 && PalindromeCount(s, n).Ok?
    ensures PalindromeCount(s, n).value <= n
  {
    if n > 0 {
      PalindromeCountBound(s, n - 1);
    }
  }

  /** The counter fails exactly when a window holds a non-base. */
  lemma {:induction false} PalindromeCountOk(s: string, n: nat)
    requires |s| == GUIDE_LENGTH && 0 < n <= 17
    ensures PalindromeCount(s, n).Ok? <==> IsDna(s[..n + 3])
  {
    if n > 1 {
      PalindromeCountOk(s, n - 1);
    }
    var w := s[n - 1..n + 3];
    assert forall j :: 0 <= j < 4 ==> w[j] == s[n - 1 + j];
    assert IsDna(s[..n + 3]) <==> (n == 1 || IsDna(s[..n + 2])) && IsDna(w);
  }

  /** Errors of the heuristic: ValueError for any other length, KeyError
      for a 20-mer with a character other than A, C, G, T. */
  lemma HeuristicFails(s: string)
    ensures |s| != GUIDE_LENGTH ==> Heuristic(s) == Err(WrongLength(|s|))
    ensures |s| == GUIDE_LENGTH ==> (Heuristic(s).Ok? <==> IsDna(s))
  {
    if |s| == GUIDE_LENGTH {
      PalindromeCountOk(s, 17);
      assert s[..20] == s;
    }
  }

  /** The score lies in [0, 2.2]: at most 1.0 + 0.5 + 0.2 + 0.2 + 0.3. */
  lemma HeuristicBounds(s: string)
    requires Heuristic(s).Ok?
    ensures 0 <= Heuristic(s).value <= 22
  {
  }

  /** The self-complementarity penalty is min(0.3 * count, 0.8) with the
      count in [0, 17], so it lies in [0, 0.8]. */
  lemma PenaltyBounds(s: string)
    requires |s| == GUIDE_LENGTH && PalindromeCount(s, 17).Ok?
    ensures var c := PalindromeCount(s, 17).value; 0 <= c <= 17 && 0 <= Min(3 * c, 8) <= 8
  {
    PalindromeCountBound(s, 17);
  }

  /** The counter only grows as windows are added. */
  lemma {:induction false} PalindromeCountMonotone(s: string, m: nat, n: nat)
    requires |s| == GUIDE_LENGTH && m <= n <= 17 && PalindromeCount(s, n).Ok?
    ensures PalindromeCount(s, m).Ok? && PalindromeCount(s, m).value <= PalindromeCount(s, n).value
    decreases n
  {
    if m < n {
      PalindromeCountMonotone(s, m, n - 1);
    }
  }

  /** A window that is its own reverse complement counts: `in` searches
      the whole guide, the window itself included. */
  lemma SelfComplementaryWindowCounts(s: string, i: nat)
    requires |s| == GUIDE_LENGTH && IsDna(s) && i < 17
    requires ReverseComplement(s[i..i + 4]) == Ok(s[i..i + 4])
    ensures PalindromeCount(s, 17).Ok? && PalindromeCount(s, 17).value >= 1
  {
    HeuristicFails(s);
    PalindromeCountMonotone(s, i + 1, 17);
    assert OccursAt(s[i..i + 4], s, i);
  }

  /** All else equal, a guide ending in G scores 0.5 + 0.3 above the same
      guide ending in another base, 0.3 more against a final T, unless the
      other score is clamped at 0; it is at least 0.7 above in every case. */
  lemma LastBaseGBonus(s: string, t: string)
    requires |s| == |t| == GUIDE_LENGTH && s[..19] == t[..19]
    requires s[19] == 'G' && t[19] != 'G'
    requires Heuristic(s).Ok? && Heuristic(t).Ok?
    requires GcPenalty(CountGc(s)) == GcPenalty(CountGc(t))
    requires PalindromeCount(s, 17) == PalindromeCount(t, 17)
    ensures Heuristic(s).value >= Heuristic(t).value + 7
    ensures Heuristic(t).value > 0 ==> Heuristic(s).value == Heuristic(t).value + 8 + (if t[19] == 'T' then 3 else 0)
  {
    assert s[17] == s[..19][17] == t[..19][17] == t[17];
    assert s[18] == s[..19][18] == t[..19][18] == t[18];
  }

  /** The model-backed scorers (predecir_eficiencia with the random
      forest, predecir_eficiencia_nn, predecir_eficiencia_xgb): the length
      check, one-hot encoding, and 100 times the predictor's output. */
  function ModelScore(s: string, predict: seq<int> -> real): (r: Result<real>)
    ensures |s| != GUIDE_LENGTH ==> r == Err(WrongLength(|s|))
    ensures |s| == GUIDE_LENGTH ==> (r.Ok? <==> IsDna(s))
    ensures r.Ok? ==> |OneHot(s).value| == 80 && r.value == 100.0 * predict(OneHot(s).value)
  {
    if |s| != GUIDE_LENGTH then Err(WrongLength(|s|))
    else
      match OneHot(s)
      case Err(e) => Err(e)
      case Ok(encoded) => Ok(100.0 * predict(encoded))
  }

  /** predecir_eficiencia_combined: the mean of the boosted-tree and neural
      scores, the boosted-tree one computed (and failing) first. */
  function CombinedScore(s: string, xgb: seq<int> -> real, nn: seq<int> -> real): (r: Result<real>)
    ensures r.Err? <==> ModelScore(s, xgb).Err?
    ensures r.Err? ==> r.error == ModelScore(s, xgb).error
    ensures r.Ok? ==> var x, n := ModelScore(s, xgb).value, ModelScore(s, nn).value;
                      r.value * 2.0 == x + n && (x <= r.value <= n || n <= r.value <= x)
  {
    match ModelScore(s, xgb)
    case Err(e) => Err(e)
    case Ok(x) =>
      match ModelScore(s, nn)
      case Err(e) => Err(e)
      case Ok(n) => Ok((x + n) / 2.0)
  }
}
